/**
 * Python's `dict` from string to string: the keys in insertion order, each
 * once, with their values. Assigning to a present key replaces its value
 * and keeps its position; assigning to a new key appends it.
 */
module Dicts {
  import opened Wrappers

  type Pairs = seq<(string, string)>

  function Keys(d: Pairs): seq<string>
  {
    seq(|d|, i requires 0 <= i < |d| => d[i].0)
  }

  /** Each key occurs once. */
  predicate UniqueKeys(d: Pairs)
  {
    forall i, j :: 0 <= i < j < |d| ==> d[i].0 != d[j].0
  }

  /** The position of a present key: the first one holding it. */
  function Position(d: Pairs, k: string): (i: nat)
    requires k in Keys(d)
    ensures i < |d| && d[i].0 == k
    ensures forall j :: 0 <= j < i ==> d[j].0 != k
  {
    if d[0].0 == k then 0
    else
      assert Keys(d) == [d[0].0] + Keys(d[1..]);
      1 + Position(d[1..], k)
  }

  /** `d.get(k)`. */
  function Lookup(d: Pairs, k: string): (r: Option<string>)
    ensures r.None? <==> k !in Keys(d)
    ensures r.Some? ==> (k, r.value) in d
  {
    if k in Keys(d) then Some(d[Position(d, k)].1) else None
  }

  /** With unique keys, the position of a key is the one index holding it. */
  lemma PositionUnique(d: Pairs, k: string, i: nat)
    requires UniqueKeys(d) && i < |d| && d[i].0 == k
    ensures k in Keys(d) && Position(d, k) == i
  {
    assert Keys(d)[i] == k;
  }

  /** `d[k] = v`. */
  function Put(d: Pairs, k: string, v: string): Pairs
  {
    if k in Keys(d) then d[Position(d, k) := (k, v)] else d + [(k, v)]
  }

  /**
   * An assignment keeps the keys unique, reads back what was written, and
   * leaves every other key where it was with its value; a new key goes last.
   */
  lemma PutSpec(d: Pairs, k: string, v: string)
    requires UniqueKeys(d)
    ensures var r := Put(d, k, v);
            && UniqueKeys(r)
            && Lookup(r, k) == Some(v)
            && (forall x :: x != k ==> Lookup(r, x) == Lookup(d, x))
            && (k in Keys(d) ==> |r| == |d| && Keys(r) == Keys(d))
            && (k !in Keys(d) ==> Keys(r) == Keys(d) + [k])
  {
    var r := Put(d, k, v);
    if k in Keys(d) {
      var p := Position(d, k);
      assert Keys(r) == Keys(d);
      PositionUnique(r, k, p);
      forall x | x != k ensures Lookup(r, x) == Lookup(d, x) {
        if x in Keys(d) {
          var q := Position(d, x);
          PositionUnique(r, x, q);
        }
      }
    } else {
      assert Keys(r) == Keys(d) + [k];
      assert UniqueKeys(r) by {
        forall i, j | 0 <= i < j < |r| ensures r[i].0 != r[j].0 {
          if j == |d| { assert Keys(d)[i] == r[i].0; }
        }
      }
      PositionUnique(r, k, |d|);
      forall x | x != k ensures Lookup(r, x) == Lookup(d, x) {
        if x in Keys(d) {
          var q := Position(d, x);
          PositionUnique(r, x, q);
        }
      }
    }
  }
}
