// Result types shared by the whole model.
module Wrappers {
  datatype Option<+T> = None | Some(value: T)

  /** The concatenation of a sequence of sequences: frames of a file, batches of a table. */
  function Concat<T>(parts: seq<seq<T>>): seq<T> {
    if |parts| == 0 then [] else Concat(parts[..|parts| - 1]) + parts[|parts| - 1]
  }

  lemma {:induction false} ConcatAppend<T>(left: seq<seq<T>>, right: seq<seq<T>>)
    ensures Concat(left + right) == Concat(left) + Concat(right)
  {
    if right == [] {
      assert left + right == left;
    } else {
      var n := |right| - 1;
      assert (left + right)[..|left| + n] == left + right[..n];
      ConcatAppend(left, right[..n]);
    }
  }

  /** A slice that lies within the middle part of a sequence. */
  lemma SliceWithin<T>(pre: seq<T>, mid: seq<T>, post: seq<T>, a: nat, b: nat)
    requires a <= b <= |mid|
    ensures (pre + mid + post)[|pre| + a..|pre| + b] == mid[a..b]
  {
  }

  /** Maps that agree apart from one key agree on every other key. */
  lemma UntouchedKey<K, V>(was: map<K, V>, now: map<K, V>, touched: K, key: K)
    requires now - {touched} == was - {touched} && key != touched
    ensures key in now <==> key in was
    ensures key in was ==> now[key] == was[key]
  {
    assert key in now <==> key in now - {touched};
    assert key in was <==> key in was - {touched};
    if key in was {
      assert (now - {touched})[key] == (was - {touched})[key];
    }
  }

  /** Maps that agree apart from one key differ by an update of that key. */
  lemma UpdatedKey<K, V>(was: map<K, V>, now: map<K, V>, touched: K, value: V)
    requires now - {touched} == was - {touched}
    requires touched in now && now[touched] == value
    ensures now == was[touched := value]
  {
    forall key | (key in now || key in was) && key != touched
      ensures key in now && key in was && now[key] == was[key]
    {
      UntouchedKey(was, now, touched, key);
    }
  }
}
