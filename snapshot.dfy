/** The garages dictionary built by the row loop: an insertion-ordered map
    from garage name to percentage text, kept as its entries in order. */
module Snapshot {
  import opened Errors

  /** One dictionary item: a cleaned garage name and its percentage text. */
  datatype Entry = Entry(name: string, pct: string)

  /** A Python `dict` from names to percentage texts, as its items in insertion order. */
  type Snapshot = seq<Entry>

  /** `list(d.keys())`. */
  function Keys(s: Snapshot): (ks: seq<string>)
    ensures |ks| == |s|
    ensures forall i :: 0 <= i < |s| ==> ks[i] == s[i].name
  {
    seq(|s|, i requires 0 <= i < |s| => s[i].name)
  }

  /** No name occurs twice, as in every Python dictionary. */
  predicate DistinctKeys(s: Snapshot)
  {
    forall i, j :: 0 <= i < j < |s| ==> s[i].name != s[j].name
  }

  /** The position of key `k`: the first entry named `k`. */
  function IndexOf(s: Snapshot, k: string): (i: nat)
    requires k in Keys(s)
    ensures i < |s| && s[i].name == k
    ensures forall j :: 0 <= j < i ==> s[j].name != k
  {
    if s[0].name == k then 0
    else
      assert Keys(s) == [s[0].name] + Keys(s[1..]);
      1 + IndexOf(s[1..], k)
  }

  /** `d.get(k)`: the value stored under `k`, or None when `k` is not a key. */
  function Get(s: Snapshot, k: string): (r: Option<string>)
    ensures r.Some? <==> k in Keys(s)
    ensures r.Some? ==> Entry(k, r.value) in s
    ensures DistinctKeys(s) ==> forall i :: 0 <= i < |s| && s[i].name == k ==> r == Some(s[i].pct)
  {
    if k in Keys(s) then Some(s[IndexOf(s, k)].pct) else None
  }

  /** `d[k] = v`: a key already present keeps its position and takes the new
      value, a new key is appended, and every other item is left as it was. */
  function Put(s: Snapshot, k: string, v: string): (r: Snapshot)
    ensures Keys(r) == if k in Keys(s) then Keys(s) else Keys(s) + [k]
    ensures forall i :: 0 <= i < |s| && s[i].name != k ==> r[i] == s[i]
    ensures k in Keys(s) ==> r[IndexOf(s, k)] == Entry(k, v)
    ensures k !in Keys(s) ==> r == s + [Entry(k, v)]
    ensures DistinctKeys(s) ==> DistinctKeys(r)
  {
    if k in Keys(s) then
      var r := s[IndexOf(s, k) := Entry(k, v)];
      assert Keys(r) == Keys(s);
      r
    else
      var r := s + [Entry(k, v)];
      assert Keys(r) == Keys(s) + [k];
      r
  }

  /** After `d[k] = v`, `d.get(k)` is `v` and every other key reads as before. */
  lemma PutGet(s: Snapshot, k: string, v: string, k': string)
    ensures Get(Put(s, k, v), k') == if k' == k then Some(v) else Get(s, k')
  {
    var r := Put(s, k, v);
    if k' in Keys(s) {
      var i := IndexOf(s, k');
      assert IndexOf(r, k') == i by {
        var j := IndexOf(r, k');
        assert j <= i by { assert Keys(r)[i] == k'; }
        assert Keys(s)[j] == k';
      }
    } else if k' == k {
      assert r[|s|] == Entry(k, v);
      assert IndexOf(r, k') == |s| by {
        assert Keys(r)[|s|] == k;
      }
    }
  }

  /** In a dictionary, the value under the key of item `i` is item `i`'s value. */
  lemma GetAt(s: Snapshot, i: nat)
    requires DistinctKeys(s) && i < |s|
    ensures Get(s, s[i].name) == Some(s[i].pct)
  {
  }
}
