/** `get_lowest_percentage`: the dictionary's items ranked as `(int(value), key)`
    pairs, the group tied at the lowest percentage, and the sentence about it. */
module Ranking {
  import opened Errors
  import opened PyStr
  import opened PyInt
  import opened Snapshot
  import opened Extraction

  // ----- Python's ordering of `(int, str)` tuples -----

  /** Python's `a < b` on strings: code points compared left to right, and a
      proper prefix comes first. */
  predicate StrLt(a: string, b: string)
  {
    |b| > 0 && (|a| == 0 || a[0] < b[0] || (a[0] == b[0] && StrLt(a[1..], b[1..])))
  }

  lemma {:induction false} StrLtIrreflexive(a: string)
    ensures !StrLt(a, a)
  {
    if |a| > 0 {
      StrLtIrreflexive(a[1..]);
    }
  }

  lemma {:induction false} StrLtTransitive(a: string, b: string, c: string)
    requires StrLt(a, b) && StrLt(b, c)
    ensures StrLt(a, c)
  {
    if |a| > 0 && a[0] == b[0] && b[0] == c[0] {
      StrLtTransitive(a[1..], b[1..], c[1..]);
    }
  }

  /** Two different strings are ordered one way or the other. */
  lemma {:induction false} StrLtTotal(a: string, b: string)
    requires a != b
    ensures StrLt(a, b) || StrLt(b, a)
  {
    if |a| > 0 && |b| > 0 && a[0] == b[0] {
      assert a[1..] != b[1..];
      StrLtTotal(a[1..], b[1..]);
    }
  }

  /** One `(int(value), key)` pair of the sorted list. */
  datatype Ranked = Ranked(pct: int, name: string)

  /** Tuple order `x <= y`: by percentage, then by name. */
  predicate Le(x: Ranked, y: Ranked)
  {
    x.pct < y.pct || (x.pct == y.pct && !StrLt(y.name, x.name))
  }

  lemma LeTotal(x: Ranked, y: Ranked)
    ensures Le(x, y) || Le(y, x)
  {
    if x.pct == y.pct && StrLt(y.name, x.name) && StrLt(x.name, y.name) {
      StrLtTransitive(x.name, y.name, x.name);
      StrLtIrreflexive(x.name);
    }
  }

  lemma LeTransitive(x: Ranked, y: Ranked, z: Ranked)
    requires Le(x, y) && Le(y, z)
    ensures Le(x, z)
  {
    if x.pct == y.pct == z.pct && StrLt(z.name, x.name) {
      if x.name != y.name {
        StrLtTotal(x.name, y.name);
        StrLtTransitive(z.name, x.name, y.name);
      }
    }
  }

  /** `x <= y` and `y <= x` only for the same pair. */
  lemma LeAntisymmetric(x: Ranked, y: Ranked)
    requires Le(x, y) && Le(y, x)
    ensures x == y
  {
    if x.name != y.name {
      StrLtTotal(x.name, y.name);
    }
  }

  lemma LeReflexive(x: Ranked)
    ensures Le(x, x)
  {
    StrLtIrreflexive(x.name);
  }

  predicate Sorted(s: seq<Ranked>)
  {
    forall i, j :: 0 <= i < j < |s| ==> Le(s[i], s[j])
  }

  // ----- `sorted(...)` -----

  function Insert(x: Ranked, s: seq<Ranked>): (r: seq<Ranked>)
    ensures |r| == |s| + 1
  {
    if s == [] || Le(x, s[0]) then [x] + s else [s[0]] + Insert(x, s[1..])
  }

  /** `sorted(ps)`: an insertion sort stands for Python's sort, which gives
      the same list (SortedUnique). */
  function Sort(ps: seq<Ranked>): (r: seq<Ranked>)
    ensures |r| == |ps|
  {
    if ps == [] then [] else Insert(ps[0], Sort(ps[1..]))
  }

  lemma {:induction false} InsertSpec(x: Ranked, s: seq<Ranked>)
    requires Sorted(s)
    ensures Sorted(Insert(x, s))
    ensures multiset(Insert(x, s)) == multiset(s) + multiset{x}
  {
    var r := Insert(x, s);
    if s == [] {
    } else if Le(x, s[0]) {
      forall j | 1 <= j < |r| ensures Le(x, r[j]) {
        if j > 1 {
          LeTransitive(x, s[0], s[j - 1]);
        }
      }
      assert r == [x] + s;
    } else {
      var rest := s[1..];
      assert s == [s[0]] + rest;
      InsertSpec(x, rest);
      LeTotal(x, s[0]);
      var tail := Insert(x, rest);
      assert r == [s[0]] + tail;
      forall j | 0 <= j < |tail| ensures Le(s[0], tail[j]) {
        assert tail[j] in multiset(tail);
        if tail[j] != x {
          assert tail[j] in multiset(rest);
        }
      }
    }
  }

  /** The sorted list is in tuple order and holds the same pairs. */
  lemma {:induction false} SortSpec(ps: seq<Ranked>)
    ensures Sorted(Sort(ps))
    ensures multiset(Sort(ps)) == multiset(ps)
  {
    if ps != [] {
      SortSpec(ps[1..]);
      InsertSpec(ps[0], Sort(ps[1..]));
      assert ps == [ps[0]] + ps[1..];
    }
  }

  /** The first pair of a sorted list is at most every pair of it. */
  lemma LeastFirst(s: seq<Ranked>, y: Ranked)
    requires Sorted(s) && y in multiset(s)
    ensures Le(s[0], y)
  {
    var k :| 0 <= k < |s| && s[k] == y;
    if k == 0 {
      LeReflexive(y);
    }
  }

  /** Two sorted lists of the same pairs are the same list: every correct
      sort, Python's included, gives the list Sort gives. */
  lemma {:induction false} SortedUnique(a: seq<Ranked>, b: seq<Ranked>)
    requires Sorted(a) && Sorted(b) && multiset(a) == multiset(b)
    ensures a == b
  {
    assert |b| == |a| by { assert |multiset(a)| == |multiset(b)|; }
    if a != [] {
      assert a[0] in multiset(b) && b[0] in multiset(a);
      LeastFirst(a, b[0]);
      LeastFirst(b, a[0]);
      LeAntisymmetric(a[0], b[0]);
      SameTails(a, b);
      SortedUnique(a[1..], b[1..]);
    }
  }

  lemma SameTails(a: seq<Ranked>, b: seq<Ranked>)
    requires a != [] && b != [] && a[0] == b[0] && multiset(a) == multiset(b)
    ensures multiset(a[1..]) == multiset(b[1..])
  {
    assert a == [a[0]] + a[1..] && b == [b[0]] + b[1..];
    assert multiset(a) == multiset{a[0]} + multiset(a[1..]);
    assert multiset(b) == multiset{a[0]} + multiset(b[1..]);
    assert multiset(a[1..]) == multiset(a) - multiset{a[0]};
  }

  // ----- The pairs of a dictionary and the tied group -----

  /** The pair of one item, `(int(value), key)`; ValueError when the value
      is not an integer. */
  function PairOf(e: Entry): Result<Ranked>
  {
    match ParseInt(e.pct)
    case None => Err(ValueError)
    case Some(v) => Ok(Ranked(v, e.name))
  }

  /** `(int(value), key) for (key, value) in data.items()`, in the
      dictionary's order, stopping at the first ValueError. */
  function RankAll(data: Snapshot): Result<seq<Ranked>>
  {
    Collect(PairEach(data))
  }

  /** The pair of every item, in order. */
  function PairEach(data: Snapshot): (rs: seq<Result<Ranked>>)
    ensures |rs| == |data|
    ensures forall i :: 0 <= i < |data| ==> rs[i] == PairOf(data[i])
  {
    seq(|data|, i requires 0 <= i < |data| => PairOf(data[i]))
  }

  /** The pairs exist exactly when every item has one, and pair `i` is the
      pair of item `i`; the only error is ValueError. */
  lemma RankAllSpec(data: Snapshot)
    ensures RankAll(data).Ok? <==> forall i :: 0 <= i < |data| ==> PairOf(data[i]).Ok?
    ensures RankAll(data).Ok? ==> |RankAll(data).value| == |data|
    ensures RankAll(data).Ok? ==> forall i :: 0 <= i < |data| ==>
      RankAll(data).value[i] == PairOf(data[i]).value
    ensures RankAll(data).Err? ==> RankAll(data).error == ValueError
  {
    var rs := PairEach(data);
    CollectSpec(rs);
    if Collect(rs).Err? {
      var i :| 0 <= i < |rs| && rs[i] == Err(Collect(rs).error)
        && forall j :: 0 <= j < i ==> rs[j].Ok?;
      PairOfSpec(data[i]);
    }
  }

  /** An item has a pair exactly when its value parses; the pair is the
      parsed value with the key. */
  lemma PairOfSpec(e: Entry)
    ensures PairOf(e).Ok? <==> ParseInt(e.pct).Some?
    ensures PairOf(e).Ok? ==> PairOf(e).value == Ranked(ParseInt(e.pct).value, e.name)
    ensures PairOf(e).Err? ==> PairOf(e).error == ValueError
  {
  }

  /** The longest prefix whose percentages are at most `m`: the loop at
      lines 91-95 appends pairs until the first larger percentage. */
  function TakeLe(s: seq<Ranked>, m: int): (r: seq<Ranked>)
    ensures |r| <= |s|
  {
    if s == [] || s[0].pct > m then [] else [s[0]] + TakeLe(s[1..], m)
  }

  /** `sorted_garages_data[0][0]`: the percentage of the first sorted pair. */
  function Least(ps: seq<Ranked>): int
    requires ps != []
  {
    Sort(ps)[0].pct
  }

  /** `empty_garages`: the sorted pairs at the least percentage. */
  function Tied(ps: seq<Ranked>): seq<Ranked>
    requires ps != []
  {
    TakeLe(Sort(ps), Least(ps))
  }

  /** On a sorted list, the prefix is what it is: a prefix, holding exactly
      the pairs whose percentage is at most `m`. */
  lemma {:induction false} TakeLeSpec(s: seq<Ranked>, m: int)
    requires Sorted(s)
    ensures TakeLe(s, m) == s[..|TakeLe(s, m)|]
    ensures forall x :: x in TakeLe(s, m) <==> x in s && x.pct <= m
  {
    if s != [] && s[0].pct <= m {
      TakeLeSpec(s[1..], m);
      assert s == [s[0]] + s[1..];
    } else if s != [] {
      forall x | x in s ensures x.pct > m {
        var k :| 0 <= k < |s| && s[k] == x;
        if k > 0 {
          assert Le(s[0], s[k]);
        }
      }
    }
  }

  /** When every percentage is at most `m`, the loop takes the whole list. */
  lemma {:induction false} TakeLeAll(s: seq<Ranked>, m: int)
    requires forall i :: 0 <= i < |s| ==> s[i].pct <= m
    ensures TakeLe(s, m) == s
  {
    if s != [] {
      TakeLeAll(s[1..], m);
    }
  }

  /** The least percentage bounds every pair from below, and some pair has it. */
  lemma LeastSpec(ps: seq<Ranked>)
    requires ps != []
    ensures forall x :: x in ps ==> Least(ps) <= x.pct
    ensures Sort(ps)[0] in ps && Sort(ps)[0].pct == Least(ps)
  {
    var s := Sort(ps);
    SortSpec(ps);
    forall x | x in ps ensures Least(ps) <= x.pct {
      assert x in multiset(s);
      LeastFirst(s, x);
    }
    assert s[0] in multiset(ps);
  }

  /** A pair is in the tied group exactly when its percentage is the least. */
  lemma TiedMembers(ps: seq<Ranked>)
    requires ps != []
    ensures Tied(ps) != []
    ensures forall x :: x in Tied(ps) <==> x in ps && x.pct == Least(ps)
  {
    var s := Sort(ps);
    SortSpec(ps);
    LeastSpec(ps);
    TakeLeSpec(s, Least(ps));
    assert s[0] in Tied(ps);
    forall x ensures x in s <==> x in ps {
      assert x in s <==> x in multiset(s);
    }
  }

  /** The tied group is a prefix of the sorted list, so its names are in
      Python's string order. */
  lemma TiedOrder(ps: seq<Ranked>)
    requires ps != []
    ensures forall i, j :: 0 <= i < j < |Tied(ps)| ==> !StrLt(Tied(ps)[j].name, Tied(ps)[i].name)
  {
    var s := Sort(ps);
    SortSpec(ps);
    TakeLeSpec(s, Least(ps));
    TiedMembers(ps);
    var t := Tied(ps);
    forall i, j | 0 <= i < j < |t| ensures !StrLt(t[j].name, t[i].name) {
      assert t[i] == s[i] && t[j] == s[j];
      assert t[i] in t && t[j] in t;
    }
  }

  /** The tied group is every garage exactly when all percentages are equal. */
  lemma TiedEverything(ps: seq<Ranked>)
    requires ps != []
    ensures |Tied(ps)| == |ps| <==> forall x :: x in ps ==> x.pct == Least(ps)
  {
    var s := Sort(ps);
    var m := Least(ps);
    var t := Tied(ps);
    SortSpec(ps);
    TakeLeSpec(s, m);
    TiedMembers(ps);
    if forall x :: x in ps ==> x.pct == m {
      forall i | 0 <= i < |s| ensures s[i].pct <= m {
        assert s[i] in multiset(ps);
      }
      TakeLeAll(s, m);
    }
    if |t| == |ps| {
      assert t == s;
      forall x | x in ps ensures x.pct == m {
        assert x in multiset(s);
      }
    }
  }

  // ----- The sentence -----

  /** `'%s, ' % name` for each pair, in order (lines 108-109). */
  function CommaList(t: seq<Ranked>): string
  {
    if t == [] then "" else CommaList(t[..|t| - 1]) + (t[|t| - 1].name + ", ")
  }

  /** The sentence of lines 102-116 for the tied group `t` of a dictionary
      with `total` items: one garage, two garages, a comma list with "and"
      before the last name when some garages are not tied, and otherwise
      "All garages". */
  function LeastFullText(t: seq<Ranked>, total: nat): string
    requires t != []
  {
    var n := |t|;
    if n == 1 then
      "Garage " + (t[0].name + (" is the least full with " + (Decimal(t[0].pct) + " percent capacity.")))
    else if n == 2 then
      "Garages " + (t[0].name + (" and " + (t[1].name + (" are the least full with "
      + (Decimal(t[0].pct) + " percent capacity.")))))
    else if 3 <= n < total then
      "Garages " + CommaList(t[..n - 1]) + ("and " + t[n - 1].name)
      + (" are the least full with " + (Decimal(t[n - 1].pct) + " percent capacity."))
    else
      "All garages are " + (Decimal(t[n - 1].pct) + " percent full.")
  }

  /** What `get_lowest_percentage` returns for a dictionary: ValueError when
      some value is not an integer, IndexError when there are no items,
      otherwise the sentence about the tied group. */
  function LowestPercentageText(data: Snapshot): Result<string>
  {
    match RankAll(data)
    case Err(e) => Err(e)
    case Ok(ps) => if ps == [] then Err(IndexError) else Ok(LeastFullText(Tied(ps), |data|))
  }

  /** Lines 81-118 after the dictionary is read: sort the pairs, collect the
      ones at the least percentage, and build the sentence. */
  method LowestPercentage(data: Snapshot) returns (r: Result<string>)
    ensures r == LowestPercentageText(data)
  {
    var pairs := RankAll(data);
    if pairs.Err? {
      return Err(pairs.error);
    }
    var sortedPairs := Sort(pairs.value);
    if |sortedPairs| == 0 {
      return Err(IndexError);
    }
    var emptyGarages := TiedPrefix(sortedPairs);
    var response := LeastFullSentence(emptyGarages, |data|);
    return Ok(response);
  }

  /** Lines 89-95: the pairs from the front of the sorted list up to the
      first one above the least percentage. */
  method TiedPrefix(sortedPairs: seq<Ranked>) returns (tied: seq<Ranked>)
    requires sortedPairs != []
    ensures tied == TakeLe(sortedPairs, sortedPairs[0].pct)
  {
    var minimum := sortedPairs[0].pct;
    tied := [];
    var i := 0;
    while i < |sortedPairs|
      invariant 0 <= i <= |sortedPairs|
      invariant tied == sortedPairs[..i]
      invariant forall j :: 0 <= j < i ==> sortedPairs[j].pct <= minimum
    {
      if sortedPairs[i].pct > minimum {
        break;
      }
      tied := tied + [sortedPairs[i]];
      i := i + 1;
    }
    TakeLePrefix(sortedPairs, minimum, i);
  }

  /** Lines 97-116: the sentence for the tied pairs of a dictionary with
      `total` items. */
  method LeastFullSentence(tied: seq<Ranked>, total: nat) returns (response: string)
    requires tied != []
    ensures response == LeastFullText(tied, total)
  {
    var n := |tied|;
    if n == 1 {
      response := "Garage " + (tied[0].name + (" is the least full with "
        + (Decimal(tied[0].pct) + " percent capacity.")));
    } else if n == 2 {
      response := "Garages " + (tied[0].name + (" and " + (tied[1].name + (" are the least full with "
        + (Decimal(tied[0].pct) + " percent capacity.")))));
    } else if 3 <= n < total {
      response := ListSentence(tied);
    } else {
      response := "All garages are " + (Decimal(tied[n - 1].pct) + " percent full.");
    }
  }

  /** Lines 107-114: "Garages ", each name but the last followed by ", ",
      then "and" and the last name, then the percentage. */
  method ListSentence(tied: seq<Ranked>) returns (response: string)
    requires |tied| >= 1
    ensures response == "Garages " + CommaList(tied[..|tied| - 1]) + ("and " + tied[|tied| - 1].name)
      + (" are the least full with " + (Decimal(tied[|tied| - 1].pct) + " percent capacity."))
  {
    var n := |tied|;
    response := "Garages ";
    for j := 0 to n - 1
      invariant response == "Garages " + CommaList(tied[..j])
    {
      CommaNext(tied, j);
      response := response + (tied[j].name + ", ");
    }
    response := response + ("and " + tied[n - 1].name);
    response := response + (" are the least full with " + (Decimal(tied[n - 1].pct)
      + " percent capacity."));
  }

  /** The loop stops at index `i`: everything before is at most `m` and the
      pair at `i`, if any, is above it. */
  lemma {:induction false} TakeLePrefix(s: seq<Ranked>, m: int, i: nat)
    requires i <= |s|
    requires forall j :: 0 <= j < i ==> s[j].pct <= m
    requires i == |s| || s[i].pct > m
    ensures TakeLe(s, m) == s[..i]
  {
    if i > 0 {
      TakeLePrefix(s[1..], m, i - 1);
      assert s[..i] == [s[0]] + s[1..][..i - 1];
    }
  }

  lemma CommaNext(t: seq<Ranked>, j: nat)
    requires j < |t|
    ensures CommaList(t[..j + 1]) == CommaList(t[..j]) + (t[j].name + ", ")
  {
    assert t[..j + 1][..j] == t[..j];
  }

  /** `get_lowest_percentage`, lines 81-118. */
  method GetLowestPercentage(rows: seq<Row>) returns (r: Result<string>)
    ensures r == match GarageData(rows)
                 case Err(e) => Err(e)
                 case Ok(data) => LowestPercentageText(data)
  {
    var garagesData := GetGarageData(rows);
    if garagesData.Err? {
      return Err(garagesData.error);
    }
    r := LowestPercentage(garagesData.value);
  }

  // ----- Properties of the sentence -----

  lemma {:induction false} CommaListAppend(a: seq<Ranked>, b: seq<Ranked>)
    ensures CommaList(a + b) == CommaList(a) + CommaList(b)
  {
    if b == [] {
      assert a + b == a;
    } else {
      var init := b[..|b| - 1];
      assert (a + b)[..|a + b| - 1] == a + init;
      CommaListAppend(a, init);
    }
  }

  /** The sentence starts "All " exactly when at least three garages are tied
      and they are all the garages there are, and "Garage " (singular) exactly
      when one garage is tied. */
  lemma LeastFullShape(t: seq<Ranked>, total: nat)
    requires t != []
    ensures OccursAt(LeastFullText(t, total), "All ", 0) <==> |t| >= 3 && |t| >= total
    ensures OccursAt(LeastFullText(t, total), "Garage ", 0) <==> |t| == 1
  {
    var text := LeastFullText(t, total);
    var n := |t|;
    if n == 1 {
      StartsOne(t, total);
      Exclusive(text, "Garage ", "All ", 0);
    } else if n == 2 || n < total {
      StartsSome(t, total);
      Exclusive(text, "Garages ", "All ", 0);
      Exclusive(text, "Garages ", "Garage ", 6);
    } else {
      StartsAll(t, total);
      Exclusive(text, "All ", "Garage ", 0);
    }
  }

  /** A text cannot start with two words that differ at position `k`. */
  lemma Exclusive(text: string, p: string, q: string, k: nat)
    requires OccursAt(text, p, 0) && k < |p| && k < |q| && p[k] != q[k]
    ensures !OccursAt(text, q, 0)
  {
    assert text[..|p|][k] == p[k];
  }

  lemma StartsOne(t: seq<Ranked>, total: nat)
    requires |t| == 1
    ensures OccursAt(LeastFullText(t, total), "Garage ", 0)
  {
    OccursPrefix("Garage ", t[0].name + (" is the least full with " + (Decimal(t[0].pct) + " percent capacity.")));
  }

  lemma StartsSome(t: seq<Ranked>, total: nat)
    requires |t| == 2 || 3 <= |t| < total
    ensures OccursAt(LeastFullText(t, total), "Garages ", 0)
  {
    var n := |t|;
    if n == 2 {
      OccursPrefix("Garages ", t[0].name + (" and " + (t[1].name + (" are the least full with "
        + (Decimal(t[0].pct) + " percent capacity.")))));
    } else {
      ListText(t, total);
      var rest := ("and " + t[n - 1].name)
        + (" are the least full with " + (Decimal(t[n - 1].pct) + " percent capacity."));
      OccursPrefix("Garages ", CommaList(t[..n - 1]));
      OccursAppend("Garages " + CommaList(t[..n - 1]), "Garages ", 0, rest);
    }
  }

  lemma StartsAll(t: seq<Ranked>, total: nat)
    requires |t| >= 3 && |t| >= total
    ensures OccursAt(LeastFullText(t, total), "All ", 0)
  {
    AllSentence(t, total);
    OccursPrefix("All ", "garages are " + (Decimal(t[|t| - 1].pct) + " percent full."));
    assert "All garages are " == "All " + "garages are ";
  }

  /** Unless the sentence is "All garages ...", it names every tied garage. */
  lemma LeastFullNamesAll(t: seq<Ranked>, total: nat, i: nat)
    requires t != [] && i < |t|
    requires |t| <= 2 || |t| < total
    ensures Contains(LeastFullText(t, total), t[i].name)
  {
    if |t| <= 2 {
      NamesInShortSentence(t, total, i);
    } else {
      NamesInListSentence(t, total, i);
    }
  }

  lemma NamesInShortSentence(t: seq<Ranked>, total: nat, i: nat)
    requires 1 <= |t| <= 2 && i < |t|
    ensures Contains(LeastFullText(t, total), t[i].name)
  {
    if |t| == 1 {
      MentionAfter("Garage ", t[0].name,
        " is the least full with " + (Decimal(t[0].pct) + " percent capacity."));
    } else {
      var rest := " are the least full with " + (Decimal(t[0].pct) + " percent capacity.");
      if i == 0 {
        MentionAfter("Garages ", t[0].name, " and " + (t[1].name + rest));
      } else {
        MentionAfter3("Garages ", t[0].name, " and ", t[1].name, rest);
      }
    }
  }

  lemma NamesInListSentence(t: seq<Ranked>, total: nat, i: nat)
    requires 3 <= |t| < total && i < |t|
    ensures Contains(LeastFullText(t, total), t[i].name)
  {
    var n := |t|;
    ListText(t, total);
    var last := t[n - 1];
    var tail := " are the least full with " + (Decimal(last.pct) + " percent capacity.");
    if i < n - 1 {
      NameInList(t[..n - 1], i, ("and " + last.name) + tail);
    } else {
      NameLastInList("Garages " + CommaList(t[..n - 1]), last.name, tail);
    }
  }

  /** The sentence for some but not all garages tied, three or more. */
  lemma ListText(t: seq<Ranked>, total: nat)
    requires 3 <= |t| < total
    ensures LeastFullText(t, total) ==
      "Garages " + CommaList(t[..|t| - 1]) + (("and " + t[|t| - 1].name)
      + (" are the least full with " + (Decimal(t[|t| - 1].pct) + " percent capacity.")))
  {
  }

  lemma MentionAfter(a: string, w: string, rest: string)
    ensures Contains(a + (w + rest), w)
  {
    OccursPrefix(w, rest);
    OccursPrepend(a, w + rest, w, 0);
  }

  lemma MentionAfter3(a: string, b: string, c: string, w: string, rest: string)
    ensures Contains(a + (b + (c + (w + rest))), w)
  {
    OccursPrefix(w, rest);
    OccursPrepend(c, w + rest, w, 0);
    OccursPrepend(b, c + (w + rest), w, |c|);
    OccursPrepend(a, b + (c + (w + rest)), w, |b| + |c|);
  }

  /** A name in the comma list is in the sentence made of "Garages ", the
      list and whatever follows it. */
  lemma NameInList(items: seq<Ranked>, i: nat, rest: string)
    requires i < |items|
    ensures Contains("Garages " + CommaList(items) + rest, items[i].name)
  {
    CommaAt(items, i);
    MentionInside("Garages ", CommaList(items[..i]), items[i].name, CommaList(items[i + 1..]), rest);
  }

  lemma MentionInside(a: string, b: string, w: string, c: string, rest: string)
    ensures Contains(a + (b + (w + ", ") + c) + rest, w)
  {
    OccursPrefix(w, ", ");
    OccursPrepend(b, w + ", ", w, 0);
    OccursAppend(b + (w + ", "), w, |b|, c);
    OccursPrepend(a, b + (w + ", ") + c, w, |b|);
    OccursAppend(a + (b + (w + ", ") + c), w, |a| + |b|, rest);
  }

  /** The comma list splits around its item `i`. */
  lemma CommaAt(t: seq<Ranked>, i: nat)
    requires i < |t|
    ensures CommaList(t) == CommaList(t[..i]) + (t[i].name + ", ") + CommaList(t[i + 1..])
  {
    SplitAt(t, i);
    CommaListAppend(t[..i + 1], t[i + 1..]);
    CommaListAppend(t[..i], [t[i]]);
    CommaOne(t[i]);
  }

  lemma SplitAt<T>(t: seq<T>, i: nat)
    requires i < |t|
    ensures t[..i + 1] == t[..i] + [t[i]]
    ensures t[..i + 1] + t[i + 1..] == t
  {
  }

  lemma CommaOne(x: Ranked)
    ensures CommaList([x]) == x.name + ", "
  {
    assert [x][..0] == [];
  }

  /** The last name follows "and ". */
  lemma NameLastInList(head: string, name: string, tail: string)
    ensures Contains(head + (("and " + name) + tail), name)
  {
    OccursWhole(name);
    OccursPrepend("and ", name, name, 0);
    OccursAppend("and " + name, name, 4, tail);
    OccursPrepend(head, ("and " + name) + tail, name, 4);
  }

  // ----- Properties of `get_lowest_percentage` on a dictionary -----

  /** It fails with ValueError exactly when some value is not an integer,
      and with IndexError when every value is one but there are no items;
      on any non-empty dictionary the row loop returns, it succeeds. */
  lemma LowestErrors(data: Snapshot)
    ensures (exists i :: 0 <= i < |data| && ParseInt(data[i].pct).None?) ==>
      LowestPercentageText(data) == Err(ValueError)
    ensures data == [] ==> LowestPercentageText(data) == Err(IndexError)
    ensures LowestPercentageText(data).Err? ==>
      data == [] || exists i :: 0 <= i < |data| && ParseInt(data[i].pct).None?
    ensures ValidSnapshot(data) && data != [] ==> LowestPercentageText(data).Ok?
  {
    RankAllSpec(data);
    forall i | 0 <= i < |data| ensures PairOf(data[i]).Ok? <==> ParseInt(data[i].pct).Some? {
      PairOfSpec(data[i]);
    }
  }

  /** The value of item `i` is its pair's percentage. */
  lemma PairAt(data: Snapshot, i: nat)
    requires RankAll(data).Ok? && i < |data|
    ensures ParseInt(data[i].pct).Some?
    ensures RankAll(data).value[i] == Ranked(ParseInt(data[i].pct).value, data[i].name)
  {
    RankAllSpec(data);
    PairOfSpec(data[i]);
  }

  /** In terms of the dictionary: the least percentage is at most every
      value and is some garage's value, and garage `i` is in the tied group
      exactly when its value is the least. */
  lemma LowestGroup(data: Snapshot, i: nat)
    requires RankAll(data).Ok? && i < |data|
    ensures ParseInt(data[i].pct).Some?
    ensures var ps := RankAll(data).value;
      Least(ps) <= ParseInt(data[i].pct).value
      && (Ranked(ParseInt(data[i].pct).value, data[i].name) in Tied(ps)
          <==> ParseInt(data[i].pct).value == Least(ps))
    ensures var ps := RankAll(data).value;
      exists j :: 0 <= j < |data| && ParseInt(data[j].pct).Some? && ParseInt(data[j].pct).value == Least(ps)
  {
    var ps := RankAll(data).value;
    RankAllSpec(data);
    PairAt(data, i);
    assert ps[i] in ps;
    LeastSpec(ps);
    TiedMembers(ps);
    var x := Sort(ps)[0];
    var j :| 0 <= j < |ps| && ps[j] == x;
    PairAt(data, j);
  }

  /** Unless the reply is "All garages ...", it names every garage whose
      value is the least. */
  lemma LowestNamesEveryTied(data: Snapshot, i: nat)
    requires RankAll(data).Ok? && i < |data|
    requires ParseInt(data[i].pct).Some? && ParseInt(data[i].pct).value == Least(RankAll(data).value)
    requires var n := |Tied(RankAll(data).value)|; n <= 2 || n < |data|
    ensures LowestPercentageText(data).Ok?
    ensures Contains(LowestPercentageText(data).value, data[i].name)
  {
    var ps := RankAll(data).value;
    LowestGroup(data, i);
    var t := Tied(ps);
    var j :| 0 <= j < |t| && t[j] == Ranked(ParseInt(data[i].pct).value, data[i].name);
    LeastFullNamesAll(t, |data|, j);
  }

  /** When every value is the same and there are at least three garages, the
      reply is "All garages are P percent full.". */
  lemma LowestAllEqual(data: Snapshot, v: int)
    requires |data| >= 3
    requires forall i :: 0 <= i < |data| ==> ParseInt(data[i].pct) == Some(v)
    ensures LowestPercentageText(data) == Ok("All garages are " + (Decimal(v) + " percent full."))
  {
    RankAllSpec(data);
    var ps := RankAll(data).value;
    forall i | 0 <= i < |data| ensures ps[i].pct == v {
      PairAt(data, i);
    }
    LeastSpec(ps);
    TiedEverything(ps);
    TiedMembers(ps);
    var t := Tied(ps);
    assert t[|t| - 1] in t;
    AllSentence(t, |data|);
  }

  lemma AllSentence(t: seq<Ranked>, total: nat)
    requires |t| >= 3 && |t| >= total
    ensures LeastFullText(t, total) == "All garages are " + (Decimal(t[|t| - 1].pct) + " percent full.")
  {
  }

  /** Two garages tied at the least value out of two are listed by name;
      the reply is not "All garages ...". */
  lemma TwoTiedExample()
    ensures LowestPercentageText([Entry("A", "30"), Entry("B", "30")])
      == Ok("Garages " + ("A" + (" and " + ("B" + (" are the least full with " + ("30" + " percent capacity."))))))
  {
    var a, b := Ranked(30, "A"), Ranked(30, "B");
    TwoPairs();
    TwoTied();
    assert Decimal(30) == "30" by {
      assert NatDigits(3) == "3";
    }
  }

  lemma TwoPairs()
    ensures RankAll([Entry("A", "30"), Entry("B", "30")]) == Ok([Ranked(30, "A"), Ranked(30, "B")])
  {
    var data := [Entry("A", "30"), Entry("B", "30")];
    ParseDecimal(30);
    assert NatDigits(30) == "30" by {
      assert NatDigits(3) == "3";
    }
    assert PairOf(data[0]) == Ok(Ranked(30, "A")) && PairOf(data[1]) == Ok(Ranked(30, "B"));
    RankAllSpec(data);
    var ps := RankAll(data).value;
    assert ps == [Ranked(30, "A"), Ranked(30, "B")] by {
      assert ps[0] == Ranked(30, "A") && ps[1] == Ranked(30, "B");
    }
  }

  lemma TwoTied()
    ensures Tied([Ranked(30, "A"), Ranked(30, "B")]) == [Ranked(30, "A"), Ranked(30, "B")]
  {
    var a, b := Ranked(30, "A"), Ranked(30, "B");
    assert StrLt("A", "B");
    assert Sort([a, b]) == [a, b];
    TakeLeAll([a, b], 30);
  }

  // ----- The percentage the sentence speaks -----

  /** `s.endswith(w)`. */
  predicate EndsWith(s: string, w: string)
  {
    |w| <= |s| && s[|s| - |w|..] == w
  }

  lemma EndsWithSelf(w: string)
    ensures EndsWith(w, w)
  {
  }

  lemma EndsWithPrepend(p: string, s: string, w: string)
    requires EndsWith(s, w)
    ensures EndsWith(p + s, w)
  {
    assert (p + s)[|p + s| - |w|..] == s[|s| - |w|..];
  }

  /** The sentence for a tied group ends with the group's percentage: "M
      percent full." for all garages, "M percent capacity." otherwise. */
  lemma LeastFullPercent(t: seq<Ranked>, total: nat, m: int)
    requires t != [] && forall i :: 0 <= i < |t| ==> t[i].pct == m
    ensures |t| >= 3 && |t| >= total ==>
      EndsWith(LeastFullText(t, total), Decimal(m) + " percent full.")
    ensures !(|t| >= 3 && |t| >= total) ==>
      EndsWith(LeastFullText(t, total), Decimal(m) + " percent capacity.")
  {
    var n := |t|;
    var full, cap := Decimal(m) + " percent full.", Decimal(m) + " percent capacity.";
    EndsWithSelf(full);
    EndsWithSelf(cap);
    if n == 1 {
      EndsWithPrepend(" is the least full with ", cap, cap);
      EndsWithPrepend(t[0].name, " is the least full with " + cap, cap);
      EndsWithPrepend("Garage ", t[0].name + (" is the least full with " + cap), cap);
    } else if n == 2 {
      var rest := " are the least full with " + cap;
      EndsWithPrepend(" are the least full with ", cap, cap);
      EndsWithPrepend(t[1].name, rest, cap);
      EndsWithPrepend(" and ", t[1].name + rest, cap);
      EndsWithPrepend(t[0].name, " and " + (t[1].name + rest), cap);
      EndsWithPrepend("Garages ", t[0].name + (" and " + (t[1].name + rest)), cap);
    } else if n < total {
      EndsWithPrepend(" are the least full with ", cap, cap);
      EndsWithPrepend("Garages " + CommaList(t[..n - 1]) + ("and " + t[n - 1].name),
        " are the least full with " + cap, cap);
    } else {
      EndsWithPrepend("All garages are ", full, full);
    }
  }

  /** For a dictionary: the reply ends with its least value. */
  lemma LowestSpeaksLeast(data: Snapshot)
    requires LowestPercentageText(data).Ok?
    ensures var ps := RankAll(data).value;
      var text := LowestPercentageText(data).value;
      EndsWith(text, Decimal(Least(ps)) + " percent full.")
      || EndsWith(text, Decimal(Least(ps)) + " percent capacity.")
  {
    var ps := RankAll(data).value;
    TiedMembers(ps);
    var t := Tied(ps);
    forall i | 0 <= i < |t| ensures t[i].pct == Least(ps) {
      assert t[i] in t;
    }
    LeastFullPercent(t, |data|, Least(ps));
  }
}
