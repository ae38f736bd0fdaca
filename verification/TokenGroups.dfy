// Tokens of C++ gathered into groups between brackets, and edits of the raw text.

module TokenGroups {
  import opened Wrappers

  // ------------------------------------------------------------------ Groups

  datatype Bracket = Brace | SquareBracket | Parenthesis

  datatype Kind = Left(b: Bracket) | Right(b: Bracket) | Other

  datatype Token = Token(kind: Kind, rawStart: nat, rawEnd: nat)

  datatype TokenOrGroup =
    | Single(token: Token)
    | Group(startToken: Token, nested: seq<TokenOrGroup>, endToken: Token)

  function FlattenGroup(g: TokenOrGroup): seq<Token>
    decreases g, 1
  {
    match g
    case Single(t) => [t]
    case Group(s, nested, e) => [s] + Flatten(nested) + [e]
  }

  function Flatten(gs: seq<TokenOrGroup>): seq<Token> {
    if gs == [] then [] else Flatten(gs[..|gs| - 1]) + FlattenGroup(gs[|gs| - 1])
  }

  // Every group is between brackets of one kind, and no left bracket, nor the
  // right bracket of a group, is directly inside it.
  predicate WellGrouped(gs: seq<TokenOrGroup>, closing: Option<Kind>) {
    gs == [] ||
    (WellGrouped(gs[..|gs| - 1], closing)
     && match gs[|gs| - 1]
        case Single(t) => !t.kind.Left? && Some(t.kind) != closing
        case Group(s, nested, e) =>
          s.kind.Left? && e.kind == Right(s.kind.b) && WellGrouped(nested, Some(e.kind)))
  }

  // The items from ndx on, after those before, up to the first token that closes
  // the group; and where that token is. None if there is no such token.
  function NestUntil(tokens: seq<Token>, ndx: nat, closing: Kind, before: seq<TokenOrGroup>)
    : (r: Option<(seq<TokenOrGroup>, nat)>)
    requires ndx <= |tokens| && closing.Right?
    ensures r.Some? ==> ndx <= r.value.1 < |tokens| && tokens[r.value.1].kind == closing
    decreases |tokens| - ndx
  {
    if ndx == |tokens| then None
    else if tokens[ndx].kind == closing then Some((before, ndx))
    else if tokens[ndx].kind.Left? then
      match NestUntil(tokens, ndx + 1, Right(tokens[ndx].kind.b), [])
      case None => None
      case Some((nested, end)) =>
        NestUntil(tokens, end + 1, closing, before + [Group(tokens[ndx], nested, tokens[end])])
    else NestUntil(tokens, ndx + 1, closing, before + [Single(tokens[ndx])])
  }

  // All the items from ndx on, after those before.
  function GroupFrom(tokens: seq<Token>, ndx: nat, before: seq<TokenOrGroup>): Option<seq<TokenOrGroup>>
    requires ndx <= |tokens|
    decreases |tokens| - ndx
  {
    if ndx == |tokens| then Some(before)
    else if tokens[ndx].kind.Left? then
      match NestUntil(tokens, ndx + 1, Right(tokens[ndx].kind.b), [])
      case None => None
      case Some((nested, end)) => GroupFrom(tokens, end + 1, before + [Group(tokens[ndx], nested, tokens[end])])
    else GroupFrom(tokens, ndx + 1, before + [Single(tokens[ndx])])
  }

  lemma {:induction false} FlattenSnoc(gs: seq<TokenOrGroup>, g: TokenOrGroup)
    ensures Flatten(gs + [g]) == Flatten(gs) + FlattenGroup(g)
  {
    assert (gs + [g])[..|gs|] == gs;
  }

  lemma {:induction false} WellGroupedSnoc(gs: seq<TokenOrGroup>, g: TokenOrGroup, closing: Option<Kind>)
    requires WellGrouped(gs, closing)
    requires match g
             case Single(t) => !t.kind.Left? && Some(t.kind) != closing
             case Group(s, nested, e) =>
               s.kind.Left? && e.kind == Right(s.kind.b) && WellGrouped(nested, Some(e.kind))
    ensures WellGrouped(gs + [g], closing)
  {
    assert (gs + [g])[..|gs|] == gs;
  }

  // A group is the tokens between its brackets.
  lemma {:induction false} NestUntilKeeps(tokens: seq<Token>, ndx: nat, closing: Kind, before: seq<TokenOrGroup>)
    requires ndx <= |tokens| && closing.Right? && WellGrouped(before, Some(closing))
    ensures var r := NestUntil(tokens, ndx, closing, before);
      r.Some? ==> Flatten(r.value.0) == Flatten(before) + tokens[ndx..r.value.1] && WellGrouped(r.value.0, Some(closing))
    decreases |tokens| - ndx
  {
    hide Flatten, WellGrouped, FlattenGroup;
    if ndx < |tokens| && tokens[ndx].kind != closing {
      if tokens[ndx].kind.Left? {
        var inside := Right(tokens[ndx].kind.b);
        assert WellGrouped([], Some(inside)) by { NothingIsWellGrouped(Some(inside)); }
        NestUntilKeeps(tokens, ndx + 1, inside, []);
        var r := NestUntil(tokens, ndx + 1, inside, []);
        if r.Some? {
          GroupTokens(tokens, ndx, r.value.0, r.value.1);
          var g := Group(tokens[ndx], r.value.0, tokens[r.value.1]);
          FlattenSnoc(before, g);
          WellGroupedSnoc(before, g, Some(closing));
          NestUntilKeeps(tokens, r.value.1 + 1, closing, before + [g]);
          TokensJoin(tokens, Flatten(before), ndx, r.value.1 + 1);
        }
      } else {
        var g := Single(tokens[ndx]);
        FlattenSnoc(before, g);
        WellGroupedSnoc(before, g, Some(closing));
        NestUntilKeeps(tokens, ndx + 1, closing, before + [g]);
        SingleToken(tokens, ndx);
        TokensJoin(tokens, Flatten(before), ndx, ndx + 1);
      }
    }
  }

  lemma SingleToken(tokens: seq<Token>, ndx: nat)
    requires ndx < |tokens|
    ensures FlattenGroup(Single(tokens[ndx])) == tokens[ndx..ndx + 1]
  {
  }

  lemma {:induction false} TokensJoin(tokens: seq<Token>, before: seq<Token>, i: nat, j: nat)
    requires i <= j <= |tokens|
    ensures forall k :: j <= k <= |tokens| ==> before + tokens[i..j] + tokens[j..k] == before + tokens[i..k]
  {
    forall k | j <= k <= |tokens| ensures before + tokens[i..j] + tokens[j..k] == before + tokens[i..k] {
      assert tokens[i..j] + tokens[j..k] == tokens[i..k];
    }
  }

  lemma NothingIsWellGrouped(closing: Option<Kind>)
    ensures WellGrouped([], closing) && Flatten([]) == []
  {
  }

  lemma GroupTokens(tokens: seq<Token>, ndx: nat, nested: seq<TokenOrGroup>, end: nat)
    requires ndx < end < |tokens| && Flatten(nested) == Flatten([]) + tokens[ndx + 1..end]
    ensures FlattenGroup(Group(tokens[ndx], nested, tokens[end])) == tokens[ndx..end + 1]
  {
    NothingIsWellGrouped(None);
    hide Flatten;
    assert [tokens[ndx]] + tokens[ndx + 1..end] + [tokens[end]] == tokens[ndx..end + 1];
  }

  lemma {:induction false} GroupFromKeeps(tokens: seq<Token>, ndx: nat, before: seq<TokenOrGroup>)
    requires ndx <= |tokens| && WellGrouped(before, None) && Flatten(before) == tokens[..ndx]
    ensures var r := GroupFrom(tokens, ndx, before);
      r.Some? ==> Flatten(r.value) == tokens && WellGrouped(r.value, None)
    decreases |tokens| - ndx
  {
    hide Flatten, WellGrouped, NestUntil;
    if ndx == |tokens| {
      assert tokens[..ndx] == tokens;
    } else if tokens[ndx].kind.Left? {
      var inside := Right(tokens[ndx].kind.b);
      NothingIsWellGrouped(Some(inside));
      NestUntilKeeps(tokens, ndx + 1, inside, []);
      var r := NestUntil(tokens, ndx + 1, inside, []);
      if r.Some? {
        GroupTokens(tokens, ndx, r.value.0, r.value.1);
        var g := Group(tokens[ndx], r.value.0, tokens[r.value.1]);
        FlattenSnoc(before, g);
        WellGroupedSnoc(before, g, None);
        assert tokens[..ndx] + tokens[ndx..r.value.1 + 1] == tokens[..r.value.1 + 1];
        GroupFromKeeps(tokens, r.value.1 + 1, before + [g]);
      }
    } else {
      var g := Single(tokens[ndx]);
      FlattenSnoc(before, g);
      WellGroupedSnoc(before, g, None);
      GroupFromKeeps(tokens, ndx + 1, before + [g]);
    }
  }

  // Grouping, if every left bracket has its right one, loses and moves no token,
  // and puts every left bracket at the start of a group that its right bracket ends.
  lemma GroupsFlatten(tokens: seq<Token>)
    ensures var r := GroupFrom(tokens, 0, []);
      r.Some? ==> Flatten(r.value) == tokens && WellGrouped(r.value, None)
  {
    NothingIsWellGrouped(None);
    GroupFromKeeps(tokens, 0, []);
  }

  // The right brackets that are still wanted after the last token, of those wanted
  // at ndx, innermost first, and those that the left brackets from there on want.
  // A right bracket that is not the innermost wanted one counts for nothing.
  function StillWanted(tokens: seq<Token>, ndx: nat, wanted: seq<Kind>): seq<Kind>
    requires ndx <= |tokens|
    decreases |tokens| - ndx
  {
    if ndx == |tokens| then wanted
    else if wanted != [] && tokens[ndx].kind == wanted[0] then StillWanted(tokens, ndx + 1, wanted[1..])
    else if tokens[ndx].kind.Left? then StillWanted(tokens, ndx + 1, [Right(tokens[ndx].kind.b)] + wanted)
    else StillWanted(tokens, ndx + 1, wanted)
  }

  // A group ends where its right bracket is no longer wanted.
  lemma {:induction false} NestIsWanted(tokens: seq<Token>, ndx: nat, closing: Kind, before: seq<TokenOrGroup>,
                                        wanted: seq<Kind>)
    requires ndx <= |tokens| && closing.Right?
    ensures var r := NestUntil(tokens, ndx, closing, before); var w := StillWanted(tokens, ndx, [closing] + wanted);
      && (r.Some? ==> w == StillWanted(tokens, r.value.1 + 1, wanted))
      && (r.None? ==> |w| > |wanted|)
    decreases |tokens| - ndx
  {
    assert ([closing] + wanted)[1..] == wanted;
    if ndx < |tokens| && tokens[ndx].kind != closing {
      if tokens[ndx].kind.Left? {
        var inside := Right(tokens[ndx].kind.b);
        NestIsWanted(tokens, ndx + 1, inside, [], [closing] + wanted);
        var r := NestUntil(tokens, ndx + 1, inside, []);
        if r.Some? {
          NestIsWanted(tokens, r.value.1 + 1, closing,
                       before + [Group(tokens[ndx], r.value.0, tokens[r.value.1])], wanted);
        }
      } else {
        NestIsWanted(tokens, ndx + 1, closing, before + [Single(tokens[ndx])], wanted);
      }
    }
  }

  lemma {:induction false} GroupIsWanted(tokens: seq<Token>, ndx: nat, before: seq<TokenOrGroup>)
    requires ndx <= |tokens|
    ensures GroupFrom(tokens, ndx, before).Some? <==> StillWanted(tokens, ndx, []) == []
    decreases |tokens| - ndx
  {
    hide NestUntil;
    if ndx < |tokens| {
      if tokens[ndx].kind.Left? {
        var inside := Right(tokens[ndx].kind.b);
        NestIsWanted(tokens, ndx + 1, inside, [], []);
        var r := NestUntil(tokens, ndx + 1, inside, []);
        if r.Some? {
          GroupIsWanted(tokens, r.value.1 + 1, before + [Group(tokens[ndx], r.value.0, tokens[r.value.1])]);
        }
      } else {
        GroupIsWanted(tokens, ndx + 1, before + [Single(tokens[ndx])]);
      }
    }
  }

  // Grouping succeeds exactly if no left bracket still wants its right one at the end.
  lemma GroupsExactly(tokens: seq<Token>)
    ensures GroupFrom(tokens, 0, []).Some? <==> StillWanted(tokens, 0, []) == []
  {
    GroupIsWanted(tokens, 0, []);
  }

  // The group that starts at startNdx, and the index beyond it.
  method NestUntilToken(tokens: seq<Token>, startNdx: nat) returns (r: Option<(TokenOrGroup, nat)>)
    requires startNdx < |tokens| && tokens[startNdx].kind.Left?
    ensures r == match NestUntil(tokens, startNdx + 1, Right(tokens[startNdx].kind.b), [])
                 case None => None
                 case Some((nested, end)) => Some((Group(tokens[startNdx], nested, tokens[end]), end + 1))
    ensures r.Some? ==> startNdx < r.value.1 <= |tokens|
    decreases |tokens| - startNdx
  {
    var targetKind := Right(tokens[startNdx].kind.b);
    var nested: seq<TokenOrGroup> := [];
    var ndx := startNdx + 1;
    while ndx < |tokens|
      invariant startNdx < ndx <= |tokens|
      invariant NestUntil(tokens, startNdx + 1, targetKind, []) == NestUntil(tokens, ndx, targetKind, nested)
    {
      if tokens[ndx].kind == targetKind {
        return Some((Group(tokens[startNdx], nested, tokens[ndx]), ndx + 1));
      }
      if tokens[ndx].kind.Left? {
        var inner := NestUntilToken(tokens, ndx);
        if inner.None? {
          return None;
        }
        nested := nested + [inner.value.0];
        ndx := inner.value.1;
        continue;
      }
      nested := nested + [Single(tokens[ndx])];
      ndx := ndx + 1;
    }
    return None;
  }

  method GroupCppTokens(tokens: seq<Token>) returns (r: Option<seq<TokenOrGroup>>)
    ensures r == GroupFrom(tokens, 0, [])
  {
    var result: seq<TokenOrGroup> := [];
    var ndx := 0;
    while ndx < |tokens|
      invariant ndx <= |tokens| && GroupFrom(tokens, 0, []) == GroupFrom(tokens, ndx, result)
    {
      if tokens[ndx].kind.Left? {
        var inner := NestUntilToken(tokens, ndx);
        if inner.None? {
          return None;
        }
        result := result + [inner.value.0];
        ndx := inner.value.1;
      } else {
        result := result + [Single(tokens[ndx])];
        ndx := ndx + 1;
      }
    }
    return Some(result);
  }

  // ------------------------------------------------------------------- Edits

  datatype Replacement = Replacement(start: nat, end: nat, text: string)
  {
    predicate Valid() { start <= end && (start < end || text != "") }
  }

  // One after the other, with a gap between any two, and within the text.
  ghost predicate Apart(rs: seq<Replacement>, length: nat) {
    && (forall i :: 0 <= i < |rs| ==> rs[i].Valid() && rs[i].end <= length)
    && forall i :: 0 < i < |rs| ==> rs[i - 1].end < rs[i].start
  }

  function End(rs: seq<Replacement>): nat { if rs == [] then 0 else rs[|rs| - 1].end }

  lemma ApartInit(rs: seq<Replacement>, length: nat)
    requires rs != [] && Apart(rs, length)
    ensures Apart(rs[..|rs| - 1], length) && End(rs[..|rs| - 1]) <= rs[|rs| - 1].start
  {
    if |rs| > 1 {
      assert rs[(|rs| - 1) - 1].end < rs[|rs| - 1].start;
    }
  }

  // The text up to the end of the last replacement, edited.
  function EditedUpTo(raw: string, rs: seq<Replacement>): string
    requires Apart(rs, |raw|)
  {
    if rs == [] then ""
    else
      ApartInit(rs, |raw|);
      var init, last := rs[..|rs| - 1], rs[|rs| - 1];
      EditedUpTo(raw, init) + raw[End(init)..last.start] + last.text
  }

  function Edited(raw: string, rs: seq<Replacement>): string
    requires Apart(rs, |raw|)
  {
    EditedUpTo(raw, rs) + raw[End(rs)..]
  }

  // How far the replacements before i move it.
  function Shift(rs: seq<Replacement>, i: nat): int {
    if rs == [] then 0
    else
      var last := rs[|rs| - 1];
      Shift(rs[..|rs| - 1], i) + if last.end <= i then |last.text| - (last.end - last.start) else 0
  }

  ghost predicate Outside(rs: seq<Replacement>, i: nat) {
    forall k :: 0 <= k < |rs| ==> i < rs[k].start || rs[k].end <= i
  }

  // Beyond all the replacements, everything is moved by what they add.
  lemma {:induction false} ShiftBeyond(raw: string, rs: seq<Replacement>, i: nat)
    requires Apart(rs, |raw|) && End(rs) <= i
    ensures |EditedUpTo(raw, rs)| == End(rs) + Shift(rs, i)
  {
    if rs != [] {
      ApartInit(rs, |raw|);
      ShiftBeyond(raw, rs[..|rs| - 1], i);
    }
  }

  lemma {:induction false} EditedUpToKeeps(raw: string, rs: seq<Replacement>, i: nat)
    requires Apart(rs, |raw|) && i < End(rs) && Outside(rs, i)
    ensures var e, k := EditedUpTo(raw, rs), i + Shift(rs, i); 0 <= k < |e| && e[k] == raw[i]
  {
    ApartInit(rs, |raw|);
    var init, last := rs[..|rs| - 1], rs[|rs| - 1];
    assert i < last.start;
    assert Outside(init, i) by {
      assert forall k :: 0 <= k < |init| ==> init[k] == rs[k];
    }
    if i < End(init) {
      EditedUpToKeeps(raw, init, i);
    } else {
      ShiftBeyond(raw, init, i);
    }
  }

  // Every character outside the replaced spans is kept, and is where the
  // replacements before it have moved it; and the edited text is as long as the
  // raw text, less what was replaced, and more what replaced it.
  lemma {:induction false} EditKeeps(raw: string, rs: seq<Replacement>, i: nat)
    requires Apart(rs, |raw|) && i < |raw| && Outside(rs, i)
    ensures var e, k := Edited(raw, rs), i + Shift(rs, i); 0 <= k < |e| && e[k] == raw[i]
    ensures |Edited(raw, rs)| == |raw| + Shift(rs, |raw|)
  {
    assert End(rs) <= |raw|;
    ShiftBeyond(raw, rs, |raw|);
    if i < End(rs) {
      EditedUpToKeeps(raw, rs, i);
    } else {
      ShiftBeyond(raw, rs, i);
    }
  }

  // In order of where they start; those that start together stay in their order.
  function InsertByStart(r: Replacement, rs: seq<Replacement>): seq<Replacement> {
    if rs == [] || r.start <= rs[0].start then [r] + rs else [rs[0]] + InsertByStart(r, rs[1..])
  }

  function SortByStart(rs: seq<Replacement>): seq<Replacement> {
    if rs == [] then [] else InsertByStart(rs[0], SortByStart(rs[1..]))
  }

  ghost predicate InOrder(rs: seq<Replacement>) {
    forall i, j :: 0 <= i < j < |rs| ==> rs[i].start <= rs[j].start
  }

  lemma {:induction false} InsertKeeps(r: Replacement, rs: seq<Replacement>)
    ensures multiset(InsertByStart(r, rs)) == multiset{r} + multiset(rs) && InsertByStart(r, rs) != []
    ensures InsertByStart(r, rs)[0] == if rs == [] || r.start <= rs[0].start then r else rs[0]
  {
    if rs != [] && r.start > rs[0].start {
      InsertKeeps(r, rs[1..]);
      assert rs == [rs[0]] + rs[1..];
    }
  }

  lemma {:induction false} InOrderCons(r: Replacement, rs: seq<Replacement>)
    requires InOrder(rs) && (rs != [] ==> r.start <= rs[0].start)
    ensures InOrder([r] + rs)
  {
    assert forall j :: 0 <= j < |rs| ==> rs[0].start <= rs[j].start;
  }

  lemma {:induction false} InsertKeepsOrder(r: Replacement, rs: seq<Replacement>)
    requires InOrder(rs)
    ensures InOrder(InsertByStart(r, rs))
  {
    hide InOrder;
    if rs == [] || r.start <= rs[0].start {
      InOrderCons(r, rs);
    } else {
      InOrderRest(rs);
      InsertKeepsOrder(r, rs[1..]);
      InsertKeeps(r, rs[1..]);
      InOrderCons(rs[0], InsertByStart(r, rs[1..]));
    }
  }

  lemma {:induction false} InOrderRest(rs: seq<Replacement>)
    requires rs != [] && InOrder(rs)
    ensures InOrder(rs[1..]) && (|rs| > 1 ==> rs[0].start <= rs[1].start)
  {
  }

  lemma {:induction false} SortKeeps(rs: seq<Replacement>)
    ensures InOrder(SortByStart(rs)) && multiset(SortByStart(rs)) == multiset(rs)
  {
    if rs != [] {
      SortKeeps(rs[1..]);
      InsertKeepsOrder(rs[0], SortByStart(rs[1..]));
      InsertKeeps(rs[0], SortByStart(rs[1..]));
      assert rs == [rs[0]] + rs[1..];
    }
  }

  // None if two of the replacements overlap, or touch, or one is beyond the end
  // of the text.
  method EditRawSource(raw: string, replacements: seq<Replacement>) returns (r: Option<string>)
    requires forall x :: x in replacements ==> x.Valid()
    ensures r.Some? <==> Apart(SortByStart(replacements), |raw|)
    ensures r.Some? ==> r.value == Edited(raw, SortByStart(replacements))
  {
    hide EditedUpTo, SortByStart;
    var sorted := SortByStart(replacements);
    SortKeeps(replacements);
    AllValid(sorted, replacements);
    var n := 1;
    while n < |sorted|
      invariant forall i :: 0 < i < n && i < |sorted| ==> sorted[i - 1].end < sorted[i].start
    {
      if sorted[n - 1].end >= sorted[n].start {
        return None;
      }
      n := n + 1;
    }
    var edited := "";
    var pos := 0;
    assert EditedUpTo(raw, []) == "" by { NothingEdited(raw); }
    for n := 0 to |sorted|
      invariant Apart(sorted[..n], |raw|) && pos == End(sorted[..n])
      invariant edited == EditedUpTo(raw, sorted[..n])
    {
      var replacement := sorted[n];
      if replacement.end > |raw| {
        return None;
      }
      OneMoreApart(raw, sorted, n);
      OneMore(raw, sorted, n);
      if pos < replacement.start {
        edited := edited + raw[pos..replacement.start];
      }
      edited := edited + replacement.text;
      pos := replacement.end;
    }
    assert sorted[..|sorted|] == sorted;
    if pos < |raw| {
      edited := edited + raw[pos..];
    }
    return Some(edited);
  }

  lemma {:induction false} AllValid(sorted: seq<Replacement>, rs: seq<Replacement>)
    requires multiset(sorted) == multiset(rs) && forall x :: x in rs ==> x.Valid()
    ensures forall i :: 0 <= i < |sorted| ==> sorted[i].Valid()
  {
    forall i | 0 <= i < |sorted| ensures sorted[i].Valid() {
      assert sorted[i] in multiset(sorted);
    }
  }

  lemma NothingEdited(raw: string)
    ensures EditedUpTo(raw, []) == ""
  {
  }

  lemma {:induction false} OneMoreApart(raw: string, rs: seq<Replacement>, n: nat)
    requires n < |rs| && Apart(rs[..n], |raw|) && rs[n].Valid() && rs[n].end <= |raw|
    requires n > 0 ==> rs[n - 1].end < rs[n].start
    ensures Apart(rs[..n + 1], |raw|)
  {
    var more := rs[..n + 1];
    assert forall i :: 0 <= i < n ==> more[i] == rs[..n][i];
    forall i | 0 < i < |more| ensures more[i - 1].end < more[i].start {
      if i < n {
        assert rs[..n][i - 1].end < rs[..n][i].start;
      }
    }
  }

  lemma {:induction false} OneMore(raw: string, rs: seq<Replacement>, n: nat)
    requires n < |rs| && Apart(rs[..n], |raw|) && Apart(rs[..n + 1], |raw|)
    ensures End(rs[..n]) <= rs[n].start
    ensures EditedUpTo(raw, rs[..n + 1]) ==
      EditedUpTo(raw, rs[..n]) + (if End(rs[..n]) < rs[n].start then raw[End(rs[..n])..rs[n].start] else "") + rs[n].text
  {
    hide Apart;
    var more := rs[..n + 1];
    assert more[..n] == rs[..n] && more[n] == rs[n];
    ApartInit(more, |raw|);
    Bounded(more, |raw|);
    assert End(rs[..n]) == rs[n].start ==> raw[End(rs[..n])..rs[n].start] == "";
  }

  lemma Bounded(rs: seq<Replacement>, length: nat)
    requires rs != [] && Apart(rs, length)
    ensures rs[|rs| - 1].start <= length
  {
  }
}
