// std::map with CaseInsensitiveLess: name and value pairs in the order of their
// names, in which two names that differ only in the case of letters are one.

module OrderedMaps {
  import opened Wrappers
  import opened Text

  type Entries = seq<(string, string)>

  // strcasecmp(a, b) < 0.
  predicate Less(a: string, b: string) {
    b != "" && (a == "" || Lower(a[0]) < Lower(b[0]) || (Lower(a[0]) == Lower(b[0]) && Less(a[1..], b[1..])))
  }

  lemma CaseEqualTail(a: string, b: string)
    requires a != "" && b != "" && Lower(a[0]) == Lower(b[0])
    ensures CaseEqual(a, b) <==> CaseEqual(a[1..], b[1..])
  {
    var la, lb := ToLower(a), ToLower(b);
    assert ToLower(a[1..]) == la[1..] && ToLower(b[1..]) == lb[1..];
    assert la == [la[0]] + la[1..] && lb == [lb[0]] + lb[1..];
  }

  // Of two names, one comes first unless they are the same word.
  lemma {:induction false} LessIsTotal(a: string, b: string)
    ensures CaseEqual(a, b) <==> !Less(a, b) && !Less(b, a)
    ensures !(Less(a, b) && Less(b, a))
  {
    if a != "" && b != "" {
      if Lower(a[0]) == Lower(b[0]) {
        CaseEqualTail(a, b);
        LessIsTotal(a[1..], b[1..]);
      } else {
        assert ToLower(a)[0] != ToLower(b)[0];
      }
    }
  }

  lemma {:induction false} LessIsTransitive(a: string, b: string, c: string)
    requires Less(a, b) && Less(b, c)
    ensures Less(a, c)
  {
    if a != "" && Lower(a[0]) == Lower(b[0]) == Lower(c[0]) {
      LessIsTransitive(a[1..], b[1..], c[1..]);
    }
  }

  lemma {:induction false} LessOfSameWord(a: string, b: string, c: string)
    requires CaseEqual(a, b)
    ensures Less(a, c) == Less(b, c) && Less(c, a) == Less(c, b)
  {
    if a != "" && b != "" {
      assert ToLower(a)[0] == ToLower(b)[0];
      CaseEqualTail(a, b);
      if c != "" {
        LessOfSameWord(a[1..], b[1..], c[1..]);
      }
    } else {
      assert |ToLower(a)| == |ToLower(b)|;
    }
  }

  ghost predicate Sorted(m: Entries) {
    forall i, j :: 0 <= i < j < |m| ==> Less(m[i].0, m[j].0)
  }

  // In order, no name occurs twice.
  lemma SortedIsDistinct(m: Entries, i: nat, j: nat)
    requires Sorted(m) && i < |m| && j < |m| && CaseEqual(m[i].0, m[j].0)
    ensures i == j
  {
    LessIsTotal(m[i].0, m[j].0);
  }

  // insert, which keeps the value of a name that is there already.
  function Insert(m: Entries, name: string, value: string): Entries {
    if m == [] || Less(name, m[0].0) then [(name, value)] + m
    else if Less(m[0].0, name) then [m[0]] + Insert(m[1..], name, value)
    else m
  }

  // insert_or_assign, which keeps the name as it is there.
  function InsertOrAssign(m: Entries, name: string, value: string): Entries {
    if m == [] || Less(name, m[0].0) then [(name, value)] + m
    else if Less(m[0].0, name) then [m[0]] + InsertOrAssign(m[1..], name, value)
    else [(m[0].0, value)] + m[1..]
  }

  function Find(m: Entries, name: string): Option<string> {
    if m == [] then None else if CaseEqual(m[0].0, name) then Some(m[0].1) else Find(m[1..], name)
  }

  // Every name after the first comes after it.
  lemma SortedCons(e: (string, string), m: Entries)
    requires Sorted(m) && (m != [] ==> Less(e.0, m[0].0))
    ensures Sorted([e] + m)
  {
    var all := [e] + m;
    forall i, j | 0 <= i < j < |all| ensures Less(all[i].0, all[j].0) {
      if i == 0 && j > 1 {
        LessIsTransitive(e.0, m[0].0, m[j - 1].0);
      }
    }
  }

  lemma {:induction false} InsertKeepsSorted(m: Entries, name: string, value: string)
    requires Sorted(m)
    ensures Sorted(Insert(m, name, value)) && Sorted(InsertOrAssign(m, name, value))
    ensures m != [] && Less(m[0].0, name) ==>
      Insert(m, name, value)[0] == m[0] && InsertOrAssign(m, name, value)[0] == m[0]
  {
    hide Less;
    if m != [] {
      LessIsTotal(m[0].0, name);
    }
    if m == [] || Less(name, m[0].0) {
      SortedCons((name, value), m);
    } else if Less(m[0].0, name) {
      InsertKeepsSorted(m[1..], name, value);
      SortedCons(m[0], Insert(m[1..], name, value));
      SortedCons(m[0], InsertOrAssign(m[1..], name, value));
    } else {
      forall i, j | 0 <= i < j < |m| ensures Less(InsertOrAssign(m, name, value)[i].0, InsertOrAssign(m, name, value)[j].0) {
        assert Less(m[i].0, m[j].0);
      }
    }
  }

  // The first entry that is not before a name is the only one that can have it.
  lemma {:induction false} FindBefore(m: Entries, name: string)
    requires Sorted(m) && (m != [] ==> Less(name, m[0].0))
    ensures Find(m, name) == None
  {
    hide Less, CaseEqual;
    if m != [] {
      LessIsTotal(m[0].0, name);
      if |m| > 1 {
        assert Less(m[0].0, m[1].0);
        LessIsTransitive(name, m[0].0, m[1].0);
      }
      FindBefore(m[1..], name);
    }
  }

  // Inserting adds a name that is not there and changes nothing else; inserting
  // or assigning gives the name its new value either way.
  lemma {:induction false} FindInserted(m: Entries, name: string, value: string, k: string)
    requires Sorted(m)
    ensures Find(Insert(m, name, value), k) ==
      if CaseEqual(name, k) && Find(m, name).None? then Some(value) else Find(m, k)
    ensures Find(InsertOrAssign(m, name, value), k) == if CaseEqual(name, k) then Some(value) else Find(m, k)
  {
    hide Less;
    if m == [] || Less(name, m[0].0) {
      FindBefore(m, name);
    } else {
      LessIsTotal(m[0].0, name);
      if Less(m[0].0, name) {
        FindInserted(m[1..], name, value, k);
      }
    }
  }
}
