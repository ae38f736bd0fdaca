// The C++ tokenizer's source text with its continued lines joined, and the map
// from that text back to the raw one.

module Phase2Sources {
  import opened Wrappers

  // ------------------------------------------------------------ Joining lines

  // A backslash and a newline follow.
  predicate IsContinued(raw: string) { |raw| >= 2 && raw[0] == '\\' && raw[1] == '\n' }

  // The text without its line continuations.
  function Splice(raw: string): string {
    if raw == "" then "" else if IsContinued(raw) then Splice(raw[2..]) else [raw[0]] + Splice(raw[1..])
  }

  // Where a character of the joined text, or its end, is in the raw text.
  function RawIndex(raw: string, i: nat): (k: nat)
    requires i <= |Splice(raw)|
  {
    if i == |Splice(raw)| then |raw|
    else if IsContinued(raw) then 2 + RawIndex(raw[2..], i)
    else if i == 0 then 0
    else 1 + RawIndex(raw[1..], i - 1)
  }

  // Each character of the joined text is that of the raw text where it came from.
  lemma {:induction false} RawIndexIsSame(raw: string, i: nat)
    requires i < |Splice(raw)|
    ensures RawIndex(raw, i) < |raw| && raw[RawIndex(raw, i)] == Splice(raw)[i]
  {
    if IsContinued(raw) {
      RawIndexIsSame(raw[2..], i);
    } else if i > 0 {
      RawIndexIsSame(raw[1..], i - 1);
    }
  }

  // Their order is the same.
  lemma {:induction false} RawIndexGrows(raw: string, i: nat, j: nat)
    requires i < j <= |Splice(raw)|
    ensures RawIndex(raw, i) < RawIndex(raw, j) <= |raw|
  {
    if j == |Splice(raw)| {
      RawIndexIsSame(raw, i);
    } else if IsContinued(raw) {
      RawIndexGrows(raw[2..], i, j);
    } else if i > 0 {
      RawIndexGrows(raw[1..], i - 1, j - 1);
    } else {
      RawIndexIsSame(raw[1..], j - 1);
    }
  }

  lemma LongEnough(a: string)
    ensures IsContinued(a) ==> |a| > 1
  {
  }

  // The raw text up to a character that is kept has the characters up to it.
  lemma {:induction false} PrefixText(raw: string, q: nat)
    requires q < |Splice(raw)|
    ensures RawIndex(raw, q) < |raw| && Splice(raw[..RawIndex(raw, q) + 1]) == Splice(raw)[..q + 1]
  {
    RawIndexIsSame(raw, q);
    var end := RawIndex(raw, q) + 1;
    if IsContinued(raw) {
      PrefixText(raw[2..], q);
      assert raw[..end][2..] == raw[2..][..end - 2];
    } else if q > 0 {
      PrefixText(raw[1..], q - 1);
      assert raw[..end][1..] == raw[1..][..end - 1];
      assert !IsContinued(raw[..end]);
      assert Splice(raw)[..q + 1] == [raw[0]] + Splice(raw[1..])[..q];
    } else {
      assert raw[..1] == [raw[0]];
    }
  }

  lemma SliceOfRest(raw: string, d: nat, i: nat, j: nat)
    requires d <= |raw| && i <= j && d + j <= |raw|
    ensures raw[d..][i..j] == raw[d + i..d + j]
  {
  }

  // The raw text of the characters from p on, before q.
  function TokenRaw(raw: string, p: nat, q: nat): string
    requires p < q <= |Splice(raw)|
  {
    TokenBounds(raw, p, q);
    raw[RawIndex(raw, p)..RawIndex(raw, q - 1) + 1]
  }

  lemma TokenBounds(raw: string, p: nat, q: nat)
    requires p < q <= |Splice(raw)|
    ensures RawIndex(raw, p) < RawIndex(raw, q - 1) + 1 <= |raw|
  {
    hide RawIndex, Splice;
    RawIndexIsSame(raw, q - 1);
    if p < q - 1 {
      RawIndexGrows(raw, p, q - 1);
    }
  }

  lemma TokenOfRest(raw: string, p: nat, q: nat)
    requires p < q <= |Splice(raw)| && (IsContinued(raw) || p > 0)
    ensures IsContinued(raw) ==> TokenRaw(raw, p, q) == TokenRaw(raw[2..], p, q)
    ensures !IsContinued(raw) ==> TokenRaw(raw, p, q) == TokenRaw(raw[1..], p - 1, q - 1)
  {
    hide IsContinued;
    LongEnough(raw);
    TokenBounds(raw, p, q);
    if IsContinued(raw) {
      TokenBounds(raw[2..], p, q);
      SliceOfRest(raw, 2, RawIndex(raw[2..], p), RawIndex(raw[2..], q - 1) + 1);
    } else {
      TokenBounds(raw[1..], p - 1, q - 1);
      SliceOfRest(raw, 1, RawIndex(raw[1..], p - 1), RawIndex(raw[1..], q - 2) + 1);
    }
  }

  // The raw text of a token, without its continuations, is its joined text.
  lemma {:induction false} TokenText(raw: string, p: nat, q: nat)
    requires p < q <= |Splice(raw)|
    ensures Splice(TokenRaw(raw, p, q)) == Splice(raw)[p..q]
  {
    hide IsContinued, TokenRaw;
    LongEnough(raw);
    if IsContinued(raw) {
      TokenText(raw[2..], p, q);
      TokenOfRest(raw, p, q);
    } else if p > 0 {
      TokenText(raw[1..], p - 1, q - 1);
      TokenOfRest(raw, p, q);
      assert Splice(raw)[p..q] == Splice(raw[1..])[p - 1..q - 1];
    } else {
      PrefixText(raw, q - 1);
      TokenAtStart(raw, q);
    }
  }

  lemma TokenAtStart(raw: string, q: nat)
    requires 0 < q <= |Splice(raw)| && !IsContinued(raw)
    ensures RawIndex(raw, q - 1) < |raw| && TokenRaw(raw, 0, q) == raw[..RawIndex(raw, q - 1) + 1]
    ensures Splice(raw)[0..q] == Splice(raw)[..q]
  {
    TokenBounds(raw, 0, q);
  }

  // ------------------------------------------------------------------- The map

  // Text with no continuation in its first k characters is joined to itself, and
  // what follows it.
  lemma {:induction false} PlainSplice(v: string, k: nat)
    requires k <= |v| && forall i :: 0 <= i < k ==> !IsContinued(v[i..])
    ensures Splice(v) == v[..k] + Splice(v[k..])
  {
    hide IsContinued;
    assert v[0..] == v;
    if k > 0 {
      var w := v[1..];
      assert forall i :: 0 <= i < k - 1 ==> w[i..] == v[i + 1..];
      PlainSplice(w, k - 1);
      assert w[k - 1..] == v[k..];
      assert v[..k] == [v[0]] + w[..k - 1];
    }
  }

  lemma {:induction false} PlainText(v: string, k: nat)
    requires k <= |v| && forall i :: 0 <= i < k ==> !IsContinued(v[i..])
    ensures Splice(v) == v[..k] + Splice(v[k..])
    ensures forall j :: 0 <= j < k ==> RawIndex(v, j) == j
    ensures forall j :: 0 <= j < |Splice(v[k..])| ==> RawIndex(v, k + j) == k + RawIndex(v[k..], j)
  {
    hide IsContinued, Splice, RawIndex;
    PlainSplice(v, k);
    assert v[0..] == v;
    if k > 0 {
      var w := v[1..];
      assert forall i :: 0 <= i < k - 1 ==> w[i..] == v[i + 1..];
      PlainText(w, k - 1);
      assert w[k - 1..] == v[k..];
      PlainStep(v, k);
    } else {
      assert v[k..] == v;
    }
  }

  lemma PlainStep(v: string, k: nat)
    requires 0 < k <= |v| && !IsContinued(v)
    requires Splice(v) == v[..k] + Splice(v[k..])
    requires forall j :: 0 <= j < k - 1 ==> j <= |Splice(v[1..])| && RawIndex(v[1..], j) == j
    requires forall j :: 0 <= j < |Splice(v[k..])| ==>
      k - 1 + j <= |Splice(v[1..])| && RawIndex(v[1..], k - 1 + j) == k - 1 + RawIndex(v[k..], j)
    ensures forall j :: 0 <= j < k ==> RawIndex(v, j) == j
    ensures forall j :: 0 <= j < |Splice(v[k..])| ==> RawIndex(v, k + j) == k + RawIndex(v[k..], j)
  {
    hide IsContinued;
    forall j | 0 <= j < k ensures RawIndex(v, j) == j {
      if j > 0 {
        assert RawIndex(v, j) == 1 + RawIndex(v[1..], j - 1);
      }
    }
    forall j | 0 <= j < |Splice(v[k..])| ensures RawIndex(v, k + j) == k + RawIndex(v[k..], j) {
      assert RawIndex(v, k + j) == 1 + RawIndex(v[1..], k - 1 + j);
    }
  }

  // The raw text from start on holds the joined text from n on.
  ghost predicate CutAt(raw: string, start: nat, n: nat) {
    && start <= |raw| && n <= |Splice(raw)| && Splice(raw)[n..] == Splice(raw[start..])
    && forall i :: n <= i < |Splice(raw)| ==> RawIndex(raw, i) == start + RawIndex(raw[start..], i - n)
  }

  lemma CutAtStart(raw: string)
    ensures CutAt(raw, 0, 0)
  {
    assert raw[0..] == raw;
  }

  // Past a segment without continuations.
  lemma CutAfterSegment(raw: string, start: nat, n: nat, end: nat)
    requires CutAt(raw, start, n) && start <= end <= |raw|
    requires forall i :: start <= i < end ==> !IsContinued(raw[i..])
    ensures CutAt(raw, end, n + (end - start))
    ensures n + (end - start) <= |Splice(raw)| && Splice(raw)[n..n + (end - start)] == raw[start..end]
    ensures forall i :: n <= i < n + (end - start) ==> RawIndex(raw, i) == start + (i - n)
  {
    hide IsContinued, Splice, RawIndex;
    var v, k := raw[start..], end - start;
    assert forall i :: 0 <= i < k ==> v[i..] == raw[start + i..];
    PlainText(v, k);
    assert v[k..] == raw[end..] && v[..k] == raw[start..end];
    assert Splice(raw)[n..][k..] == Splice(raw)[n + k..];
    assert |Splice(raw)| == n + |Splice(v)|;
    forall i | n + k <= i < |Splice(raw)| ensures RawIndex(raw, i) == end + RawIndex(raw[end..], i - (n + k)) {
      assert RawIndex(raw, i) == start + RawIndex(v, k + (i - (n + k)));
    }
  }

  // Past a continuation.
  lemma CutAfterContinuation(raw: string, start: nat, n: nat)
    requires CutAt(raw, start, n) && IsContinued(raw[start..])
    ensures CutAt(raw, start + 2, n)
  {
    var v, w := raw[start..], raw[start + 2..];
    assert v[2..] == w && Splice(v) == Splice(w);
    forall i | n <= i < |Splice(raw)| ensures RawIndex(raw, i) == start + 2 + RawIndex(w, i - n) {
      assert RawIndex(v, i - n) == 2 + RawIndex(w, i - n);
    }
  }

  // The first pair that is not beyond ndx tells where ndx is.
  function Lookup(pairs: seq<(nat, nat)>, ndx: nat): Option<nat> {
    if pairs == [] then None
    else if pairs[0].0 <= ndx then Some(pairs[0].1 + (ndx - pairs[0].0))
    else Lookup(pairs[1..], ndx)
  }

  function Reverse(pairs: seq<(nat, nat)>): (r: seq<(nat, nat)>)
    ensures |r| == |pairs|
  {
    if pairs == [] then [] else [pairs[|pairs| - 1]] + Reverse(pairs[..|pairs| - 1])
  }

  lemma {:induction false} LookupAdded(pairs: seq<(nat, nat)>, p: (nat, nat), ndx: nat)
    ensures Lookup(Reverse(pairs + [p]), ndx) == if p.0 <= ndx then Some(p.1 + (ndx - p.0)) else Lookup(Reverse(pairs), ndx)
  {
    assert (pairs + [p])[..|pairs|] == pairs;
  }

  // The pairs map every index before n as they should.
  ghost predicate MapsTo(pairs: seq<(nat, nat)>, raw: string, n: nat) {
    n <= |Splice(raw)| && forall i :: 0 <= i < n ==> Lookup(Reverse(pairs), i) == Some(RawIndex(raw, i))
  }

  class Phase2Source {
    const rawSource: string
    var phase2Source: string
    var sourceMap: seq<(nat, nat)>

    // The joined text, and the map from every index of it, and its end, to the raw text.
    ghost predicate Valid()
      reads this
    {
      && phase2Source == Splice(rawSource)
      && forall i :: 0 <= i <= |phase2Source| ==> Lookup(sourceMap, i) == Some(RawIndex(rawSource, i))
    }

    constructor (rawSource: string)
      ensures Valid() && this.rawSource == rawSource
    {
      hide IsContinued, CutAt;
      this.rawSource := rawSource;
      var phase2 := "";
      var pairs: seq<(nat, nat)> := [];
      var start := 0;
      CutAtStart(rawSource);
      while start < |rawSource|
        invariant CutAt(rawSource, start, |phase2|) && start <= |rawSource|
        invariant MapsTo(pairs, rawSource, |phase2|) && phase2 == Splice(rawSource)[..|phase2|]
      {
        var end := FindContinuation(rawSource, start);
        CutAfterSegment(rawSource, start, |phase2|, end);
        if start < end {
          AddSegment(pairs, rawSource, start, |phase2|, end);
          pairs := pairs + [(|phase2|, start)];
          ghost var before := |phase2|;
          phase2 := phase2 + rawSource[start..end];
          assert Splice(rawSource)[..|phase2|] == Splice(rawSource)[..before] + Splice(rawSource)[before..|phase2|];
        }
        if end == |rawSource| {
          start := end;
          break;
        }
        CutAfterContinuation(rawSource, end, |phase2|);
        LongEnough(rawSource[end..]);
        start := end + 2;
      }
      CutAtEnd(rawSource, start, phase2);
      var all := pairs + [(|phase2|, |rawSource|)];
      forall i | 0 <= i <= |phase2| ensures Lookup(Reverse(all), i) == Some(RawIndex(rawSource, i)) {
        LookupAdded(pairs, (|phase2|, |rawSource|), i);
      }
      phase2Source, sourceMap := phase2, Reverse(all);
    }

    // Where an index of the joined text is in the raw text; an error if there is no such index.
    method Phase2IndexToRawSourceIndex(ndx: int) returns (r: Option<nat>)
      requires Valid()
      ensures r == if 0 <= ndx <= |phase2Source| then Some(RawIndex(rawSource, ndx)) else None
    {
      if ndx < 0 || ndx > |phase2Source| {
        return None;
      }
      var i := 0;
      assert sourceMap[0..] == sourceMap;
      while i < |sourceMap|
        invariant i <= |sourceMap| && Lookup(sourceMap, ndx) == Lookup(sourceMap[i..], ndx)
      {
        var (phase2Index, rawIndex) := sourceMap[i];
        if phase2Index <= ndx {
          return Some(rawIndex + (ndx - phase2Index));
        }
        assert sourceMap[i..][1..] == sourceMap[i + 1..];
        i := i + 1;
      }
      return None;
    }
  }

  method FindContinuation(raw: string, start: nat) returns (end: nat)
    requires start <= |raw|
    ensures start <= end <= |raw| && forall i :: start <= i < end ==> !IsContinued(raw[i..])
    ensures end < |raw| ==> IsContinued(raw[end..])
  {
    end := start;
    while end < |raw| && !IsContinued(raw[end..])
      invariant start <= end <= |raw| && forall i :: start <= i < end ==> !IsContinued(raw[i..])
    {
      end := end + 1;
    }
  }

  lemma CutAtEnd(raw: string, start: nat, phase2: string)
    requires CutAt(raw, start, |phase2|) && start == |raw| && phase2 == Splice(raw)[..|phase2|]
    ensures phase2 == Splice(raw)
  {
    assert raw[start..] == "";
  }

  // One more segment is mapped.
  lemma {:induction false} AddSegment(pairs: seq<(nat, nat)>, raw: string, start: nat, n: nat, end: nat)
    requires MapsTo(pairs, raw, n) && start < end && n + (end - start) <= |Splice(raw)|
    requires forall i :: n <= i < n + (end - start) ==> RawIndex(raw, i) == start + (i - n)
    ensures MapsTo(pairs + [(n, start)], raw, n + (end - start))
  {
    hide Splice, RawIndex, Reverse, Lookup;
    forall i | 0 <= i < n + (end - start)
      ensures Lookup(Reverse(pairs + [(n, start)]), i) == Some(RawIndex(raw, i))
    {
      LookupAdded(pairs, (n, start), i);
    }
  }
}
