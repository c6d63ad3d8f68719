/** Python's `dict` with string keys and string values, as the scraper uses it:
    an association list in insertion order. Assigning `d[k] = v` overwrites the
    value in place when `k` is already a key (its position is kept) and appends
    a new entry otherwise; `d.items()` walks the entries in this order. */
module Dicts {
  import opened Wrappers

  type Dict = seq<(string, string)>

  function Keys(d: Dict): seq<string>
  {
    if d == [] then [] else [d[0].0] + Keys(d[1..])
  }

  /** No key occurs twice: every dict built with `Put` has this shape. */
  ghost predicate DistinctKeys(d: Dict)
  {
    forall i, j :: 0 <= i < j < |d| ==> d[i].0 != d[j].0
  }

  /** `d.get(k)`: the value stored under `k`, if any. */
  function Get(d: Dict, k: string): Option<string>
  {
    if d == [] then None else if d[0].0 == k then Some(d[0].1) else Get(d[1..], k)
  }

  /** `d[k] = v`. */
  function Put(d: Dict, k: string, v: string): (r: Dict)
    ensures Get(r, k) == Some(v)
    ensures forall k' :: k' != k ==> Get(r, k') == Get(d, k')
    ensures Keys(r) == if k in Keys(d) then Keys(d) else Keys(d) + [k]
  {
    if d == [] then [(k, v)]
    else if d[0].0 == k then [(k, v)] + d[1..]
    else [d[0]] + Put(d[1..], k, v)
  }

  /** `for k, v in ps: d[k] = v`. */
  function PutAll(d: Dict, ps: seq<(string, string)>): Dict
  {
    if ps == [] then d
    else Put(PutAll(d, ps[..|ps| - 1]), ps[|ps| - 1].0, ps[|ps| - 1].1)
  }

  /** Every entry of `d`, in order, with `f` applied to its key and its value. */
  function MapPairs(d: Dict, f: string -> string): (ps: seq<(string, string)>)
    ensures |ps| == |d|
  {
    if d == [] then []
    else MapPairs(d[..|d| - 1], f) + [(f(d[|d| - 1].0), f(d[|d| - 1].1))]
  }

  /** The value of the last pair of `ps` whose key is `k`. */
  function LastValue(ps: seq<(string, string)>, k: string): Option<string>
  {
    if ps == [] then None
    else if ps[|ps| - 1].0 == k then Some(ps[|ps| - 1].1)
    else LastValue(ps[..|ps| - 1], k)
  }

  lemma {:induction false} KeysMembership(d: Dict, k: string)
    ensures k in Keys(d) <==> Get(d, k).Some?
  {
    if d != [] {
      KeysMembership(d[1..], k);
    }
  }

  lemma {:induction false} KeysDistinct(d: Dict)
    requires DistinctKeys(d)
    ensures forall i, j :: 0 <= i < j < |Keys(d)| ==> Keys(d)[i] != Keys(d)[j]
  {
    if d != [] {
      KeysDistinct(d[1..]);
      KeysAt(d);
    }
  }

  lemma {:induction false} KeysAt(d: Dict)
    ensures |Keys(d)| == |d|
    ensures forall i :: 0 <= i < |d| ==> Keys(d)[i] == d[i].0
  {
    if d != [] {
      KeysAt(d[1..]);
    }
  }

  /** Assignment keeps keys distinct. */
  lemma PutDistinct(d: Dict, k: string, v: string)
    requires DistinctKeys(d)
    ensures DistinctKeys(Put(d, k, v))
  {
    var r := Put(d, k, v);
    KeysAt(d);
    KeysAt(r);
    if k in Keys(d) {
      assert Keys(r) == Keys(d);
    } else {
      assert Keys(r) == Keys(d) + [k];
      forall i | 0 <= i < |d| ensures d[i].0 != k {
        assert Keys(d)[i] == d[i].0;
      }
    }
  }

  /** After a run of assignments a key holds the value of its last assignment,
      or what it held before when none of them assigned it. */
  lemma {:induction false} PutAllGet(d: Dict, ps: seq<(string, string)>, k: string)
    ensures Get(PutAll(d, ps), k) == if LastValue(ps, k).Some? then LastValue(ps, k) else Get(d, k)
  {
    if ps != [] {
      PutAllGet(d, ps[..|ps| - 1], k);
    }
  }

  lemma {:induction false} PutAllDistinct(d: Dict, ps: seq<(string, string)>)
    requires DistinctKeys(d)
    ensures DistinctKeys(PutAll(d, ps))
  {
    if ps != [] {
      PutAllDistinct(d, ps[..|ps| - 1]);
      PutDistinct(PutAll(d, ps[..|ps| - 1]), ps[|ps| - 1].0, ps[|ps| - 1].1);
    }
  }

  /** Assignments never reorder or drop keys: the old keys stay a prefix. */
  lemma {:induction false} PutAllKeysPrefix(d: Dict, ps: seq<(string, string)>)
    ensures Keys(d) <= Keys(PutAll(d, ps))
  {
    if ps != [] {
      var prev := PutAll(d, ps[..|ps| - 1]);
      PutAllKeysPrefix(d, ps[..|ps| - 1]);
      assert Keys(prev) <= Keys(Put(prev, ps[|ps| - 1].0, ps[|ps| - 1].1));
    }
  }

  lemma PutAllSnoc(d: Dict, ps: seq<(string, string)>, p: (string, string))
    ensures PutAll(d, ps + [p]) == Put(PutAll(d, ps), p.0, p.1)
  {
    assert (ps + [p])[..|ps|] == ps;
  }

  lemma {:induction false} MapPairsAt(d: Dict, f: string -> string, i: nat)
    requires i < |d|
    ensures MapPairs(d, f)[i] == (f(d[i].0), f(d[i].1))
  {
    if i < |d| - 1 {
      MapPairsAt(d[..|d| - 1], f, i);
    }
  }

  lemma MapPairsSnoc(d: Dict, e: (string, string), f: string -> string)
    ensures MapPairs(d + [e], f) == MapPairs(d, f) + [(f(e.0), f(e.1))]
  {
    assert (d + [e])[..|d|] == d;
  }

  lemma PutAllStep(d: Dict, ps: seq<(string, string)>, i: nat)
    requires i < |ps|
    ensures PutAll(d, ps[..i + 1]) == Put(PutAll(d, ps[..i]), ps[i].0, ps[i].1)
  {
    assert ps[..i + 1] == ps[..i] + [ps[i]];
    PutAllSnoc(d, ps[..i], ps[i]);
  }

  /** The last pair with key `k` decides; a key no pair carries has no value. */
  lemma {:induction false} LastValueSpec(ps: seq<(string, string)>, k: string)
    ensures LastValue(ps, k).None? <==> forall i :: 0 <= i < |ps| ==> ps[i].0 != k
    ensures forall j :: 0 <= j < |ps| && ps[j].0 == k && (forall i :: j < i < |ps| ==> ps[i].0 != k) ==>
                          LastValue(ps, k) == Some(ps[j].1)
  {
    if ps != [] {
      var init := ps[..|ps| - 1];
      LastValueSpec(init, k);
      assert forall i :: 0 <= i < |init| ==> init[i] == ps[i];
    }
  }

  /** On a dict, iterating the entries and keeping the last value per key gives
      back the dict's own lookup. */
  lemma {:induction false} LastValueOfDict(d: Dict, k: string)
    requires DistinctKeys(d)
    ensures LastValue(d, k) == Get(d, k)
  {
    LastValueSpec(d, k);
    GetSpec(d, k);
  }

  lemma {:induction false} GetSpec(d: Dict, k: string)
    requires DistinctKeys(d)
    ensures Get(d, k).None? <==> forall i :: 0 <= i < |d| ==> d[i].0 != k
    ensures forall j :: 0 <= j < |d| && d[j].0 == k ==> Get(d, k) == Some(d[j].1)
  {
    if d != [] {
      GetSpec(d[1..], k);
      assert forall i :: 0 < i < |d| ==> d[1..][i - 1] == d[i];
    }
  }
}
