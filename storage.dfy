/**
 * The single browser-storage slot holding the user's answers, as seen after
 * `JSON.parse`. Reading it is the same `readStoredSelections` in both pages.
 */
module Storage {
  /** One element of a parsed JSON array: a number `Number.isInteger` accepts, or anything else. */
  datatype Element = Integer(value: int) | NonInteger

  /**
   * What the slot yields: nothing (no window, no item, or an empty string),
   * text `JSON.parse` rejects, a parsed value that is not an array, or an array.
   */
  datatype StoredValue = Absent | Unparsable | NotAnArray | Array(elements: seq<Element>)

  /** `parsed.filter((item) => Number.isInteger(item))`. */
  function IntegersOf(es: seq<Element>): (r: seq<int>)
    ensures |r| <= |es|
  {
    if es == [] then []
    else (if es[0].Integer? then [es[0].value] else []) + IntegersOf(es[1..])
  }

  /** An integer is read back exactly when the array holds it; nothing else is. */
  lemma {:induction false} IntegersOfMembership(es: seq<Element>)
    ensures forall x :: x in IntegersOf(es) <==> Integer(x) in es
  {
    if es != [] {
      IntegersOfMembership(es[1..]);
      assert es == [es[0]] + es[1..];
    }
  }

  lemma {:induction false} IntegersOfAppend(xs: seq<Element>, ys: seq<Element>)
    ensures IntegersOf(xs + ys) == IntegersOf(xs) + IntegersOf(ys)
  {
    if xs == [] {
      assert xs + ys == ys;
    } else {
      var h := if xs[0].Integer? then [xs[0].value] else [];
      assert (xs + ys)[0] == xs[0];
      assert (xs + ys)[1..] == xs[1..] + ys;
      IntegersOfAppend(xs[1..], ys);
      assert IntegersOf(xs + ys) == h + (IntegersOf(xs[1..]) + IntegersOf(ys));
      assert IntegersOf(xs) == h + IntegersOf(xs[1..]);
    }
  }

  /** `readStoredSelections`: every failure reads as no answers; otherwise the integer elements in order. */
  function ReadStoredSelections(v: StoredValue): (r: seq<int>)
    ensures !v.Array? ==> r == []
    ensures v.Array? ==> |r| <= |v.elements|
  {
    match v
    case Array(es) => IntegersOf(es)
    case _ => []
  }

  /** The stored form `JSON.stringify` produces for an integer array, as parsed back. */
  function Persist(s: seq<int>): (v: StoredValue)
    ensures v.Array? && |v.elements| == |s|
    ensures forall i :: 0 <= i < |s| ==> v.elements[i] == Integer(s[i])
  {
    Array(seq(|s|, i requires 0 <= i < |s| => Integer(s[i])))
  }

  /** Reading back what was written gives the same answers. */
  lemma {:induction false} ReadAfterPersist(s: seq<int>)
    ensures ReadStoredSelections(Persist(s)) == s
  {
    if s != [] {
      var es := Persist(s).elements;
      assert es == [Integer(s[0])] + Persist(s[1..]).elements;
      ReadAfterPersist(s[1..]);
    }
  }

  /** Non-integer elements are dropped one by one and the integers around them kept in order. */
  lemma ReadMixedArray()
    ensures ReadStoredSelections(Array([Integer(1), NonInteger, Integer(2)])) == [1, 2]
  {
    assert [Integer(1), NonInteger, Integer(2)] == [Integer(1)] + [NonInteger] + [Integer(2)];
    IntegersOfAppend([Integer(1)] + [NonInteger], [Integer(2)]);
    IntegersOfAppend([Integer(1)], [NonInteger]);
  }
}
