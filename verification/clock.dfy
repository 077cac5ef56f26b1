/** The second-chance scan of `evictPages` over the reference-bit array.
    The scan starts at the cursor `from` and walks to the end of the array,
    clearing every set bit it passes; the first clear bit it meets is the
    victim, whose bit is set again. A pass that meets no clear bit is
    followed by another pass from the same cursor, which stops at once
    because the first pass cleared the cursor's bit. */
module ClockScan {

  /** Every bit from `from` to the end is set. */
  ghost predicate AllSet(bits: seq<bool>, from: nat)
  {
    forall j :: from <= j < |bits| ==> bits[j]
  }

  /** The first clear bit at or after `i`, or |bits| when there is none. */
  function FirstClear(bits: seq<bool>, i: nat): (k: nat)
    requires i <= |bits|
    ensures i <= k <= |bits|
    ensures forall j :: i <= j < k ==> bits[j]
    ensures k < |bits| ==> !bits[k]
    ensures k == |bits| <==> AllSet(bits, i)
    decreases |bits| - i
  {
    if i == |bits| || !bits[i] then i else FirstClear(bits, i + 1)
  }

  /** The bits with every position in [from, upto) cleared. */
  function Cleared(bits: seq<bool>, from: nat, upto: nat): (r: seq<bool>)
    ensures |r| == |bits|
    ensures forall j :: 0 <= j < |bits| && !(from <= j < upto) ==> r[j] == bits[j]
    ensures forall j :: from <= j < upto && j < |bits| ==> !r[j]
  {
    seq(|bits|, j requires 0 <= j < |bits| => if from <= j < upto then false else bits[j])
  }

  /** The frame the scan starting at `from` reassigns. */
  function Victim(bits: seq<bool>, from: nat): (v: nat)
    requires from < |bits|
    ensures from <= v < |bits|
    ensures !AllSet(bits, from) ==> !bits[v] && forall j :: from <= j < v ==> bits[j]
    ensures AllSet(bits, from) ==> v == from
  {
    var k := FirstClear(bits, from);
    if k < |bits| then k else from
  }

  /** The reference bits after the scan starting at `from`. */
  function Swept(bits: seq<bool>, from: nat): (r: seq<bool>)
    requires from < |bits|
    ensures |r| == |bits|
    ensures r[Victim(bits, from)]
    ensures forall j :: 0 <= j < from ==> r[j] == bits[j]
    ensures forall j :: from <= j < |bits| && j != Victim(bits, from) && bits[j] && r[j] ==>
              !AllSet(bits, from) && Victim(bits, from) < j
    ensures !AllSet(bits, from) ==>
              (forall j :: from <= j < Victim(bits, from) ==> !r[j]) &&
              (forall j :: Victim(bits, from) < j < |bits| ==> r[j] == bits[j])
    ensures AllSet(bits, from) ==> forall j :: from < j < |bits| ==> !r[j]
  {
    Cleared(bits, from, FirstClear(bits, from))[Victim(bits, from) := true]
  }

  /** The loop of `evictPages`: an outer `while` that repeats passes until a
      frame is replaced, and an inner pass from `from` to the end of the
      array that breaks at the victim. `passes` and `probes` count the outer
      iterations and the bits inspected. */
  method Scan(bits: seq<bool>, from: nat) returns (victim: nat, swept: seq<bool>, passes: nat, probes: nat)
    requires from < |bits|
    ensures victim == Victim(bits, from)
    ensures swept == Swept(bits, from)
    ensures 1 <= passes <= 2
    ensures passes == 2 <==> AllSet(bits, from)
    ensures probes == FirstClear(bits, from) - from + 1
    ensures probes <= 2 * |bits|
  {
    swept := bits;
    victim := from;
    passes := 0;
    probes := 0;
    var replaced := false;
    while !replaced
      invariant |swept| == |bits|
      invariant passes <= 2
      invariant !replaced ==>
        (passes == 0 && swept == bits && probes == 0) ||
        (passes == 1 && AllSet(bits, from) && swept == Cleared(bits, from, |bits|) &&
         probes == |bits| - from)
      invariant replaced ==>
        victim == Victim(bits, from) && swept == Swept(bits, from) &&
        1 <= passes && (passes == 2 <==> AllSet(bits, from)) &&
        probes == FirstClear(bits, from) - from + 1
      decreases 2 - passes
    {
      ghost var start := swept;
      ghost var before := probes;
      passes := passes + 1;
      var i := from;
      while i < |swept|
        invariant from <= i <= |swept| == |start|
        invariant forall j :: from <= j < i ==> start[j]
        invariant !replaced
        invariant swept == Cleared(start, from, i) && probes == before + (i - from)
      {
        probes := probes + 1;
        if swept[i] {
          swept := swept[i := false];
          i := i + 1;
        } else {
          replaced := true;
          swept := swept[i := true];
          victim := i;
          break;
        }
      }
      // The second pass starts on the bit the first pass cleared at the cursor.
      assert passes == 2 ==> !start[from];
      if replaced {
        if passes == 1 {
          FirstPassVictim(bits, from, i);
        } else {
          SecondPassVictim(bits, from);
        }
      } else {
        assert AllSet(bits, from);
      }
    }
  }

  /** A victim met on the first pass is the first clear bit. */
  lemma FirstPassVictim(bits: seq<bool>, from: nat, i: nat)
    requires from <= i < |bits| && !bits[i]
    requires forall j :: from <= j < i ==> bits[j]
    ensures !AllSet(bits, from)
    ensures FirstClear(bits, from) == i == Victim(bits, from)
    ensures Swept(bits, from) == Cleared(bits, from, i)[i := true]
  {
  }

  /** When every bit from the cursor is set, the second pass stops at the cursor. */
  lemma SecondPassVictim(bits: seq<bool>, from: nat)
    requires from < |bits| && AllSet(bits, from)
    ensures FirstClear(bits, from) == |bits|
    ensures Victim(bits, from) == from
    ensures Swept(bits, from) == Cleared(Cleared(bits, from, |bits|), from, from)[from := true]
  {
  }
}
