/** The sliding replay window: a bitmap of any width that stands for the set of accepted numbers. */
module Replay {
  import opened Protocol
  import opened Numerals
  import opened Bits
  import opened Framing

  const DEFAULT_WINDOW_SIZE := 1024

  /** What the bitmap must decide, said without it: `n` is in range, was not accepted before, and
      no accepted number is `size` or more ahead of it. */
  ghost predicate Fresh(size: nat, accepted: set<int>, n: int) {
    && 0 <= n <= MAX_SEQ
    && n !in accepted
    && forall m :: m in accepted ==> m - n < size
  }

  /** Bit `i` of the bitmap says whether `highest - i` was accepted, for all numbers from 0 on. Negative numbers
      do not matter to any check, and the bitmap may forget them. */
  ghost predicate Represents(size: nat, highest: int, bitmap: nat, accepted: set<int>) {
    && (accepted == {} ==> highest == -1 && bitmap == 0)
    && (0 <= highest ==> highest in accepted)
    && (forall m :: m in accepted && 0 <= m ==> m <= highest)
    && (forall i: nat :: Bit(bitmap, i) ==> i < size && (0 <= highest ==> highest - i in accepted))
    && (forall i: nat :: i < size && i <= highest && highest - i in accepted ==> Bit(bitmap, i))
  }

  predicate InRange(accepted: set<int>) { forall m :: m in accepted ==> 0 <= m }

  /** When only numbers from 0 on were accepted, the bitmap is exact. */
  lemma BitsExact(size: nat, highest: int, bitmap: nat, accepted: set<int>, i: nat)
    requires Represents(size, highest, bitmap, accepted) && InRange(accepted)
    ensures Bit(bitmap, i) <==> i < size && highest - i in accepted
    ensures 0 <= highest <==> accepted != {}
  {
    BitZero(i);
    if highest < 0 {
      assert forall m :: m !in accepted;
      assert accepted == {};
    }
  }

  /** The accepted set after a check-and-update. */
  ghost function Update(size: nat, accepted: set<int>, n: int): set<int> {
    if Fresh(size, accepted, n) then accepted + {n} else accepted
  }

  /** Shifting the bitmap up and setting bit 0 moves the window to a new highest number. */
  lemma ShiftIn(size: nat, highest: int, bitmap: nat, accepted: set<int>, n: nat)
    requires Represents(size, highest, bitmap, accepted)
    requires 0 <= highest < n && n - highest < size
    requires ShiftLeft(1, size) > 0
    ensures Represents(size, n, And(Or(ShiftLeft(bitmap, n - highest), 1), ShiftLeft(1, size) - 1), accepted + {n})
  {
    var shift := n - highest;
    var shifted := Or(ShiftLeft(bitmap, shift), 1);
    var masked := And(shifted, ShiftLeft(1, size) - 1);
    forall i: nat ensures Bit(masked, i) <==> i < size && (i == 0 || (i >= shift && Bit(bitmap, i - shift))) {
      BitMask(size, i);
      BitAnd(shifted, ShiftLeft(1, size) - 1, i);
      BitOr(ShiftLeft(bitmap, shift), 1, i);
      BitShift(bitmap, shift, i);
      BitOne(i);
    }
    forall i: nat | Bit(masked, i) && i > 0 ensures n - i in accepted {
      assert n - i == highest - (i - shift);
    }
    forall i: nat | i < size && i <= n && n - i in accepted + {n} ensures Bit(masked, i) {
      if i > 0 { assert n - i == highest - (i - shift); }
    }
  }

  class ReplayWindow {
    const size: nat
    const mask: nat
    var highest: int
    var bitmap: nat
    ghost var accepted: set<int>

    ghost predicate Valid()
      reads this
    {
      && 1 <= size
      && mask == ShiftLeft(1, size) - 1
      && Represents(size, highest, bitmap, accepted)
    }

    constructor (size: nat := DEFAULT_WINDOW_SIZE)
      requires 1 <= size
      ensures Valid() && this.size == size && accepted == {}
    {
      BitMask(size, 0);
      this.size := size;
      mask := ShiftLeft(1, size) - 1;
      highest := -1;
      bitmap := 0;
      accepted := {};
      new;
      forall i: nat ensures !Bit(bitmap, i) { BitZero(i); }
    }

    /** A window of any size the caller asks for, if there is one. */
    static method Create(size: int := DEFAULT_WINDOW_SIZE) returns (r: Result<ReplayWindow>)
      ensures r.Ok? <==> 1 <= size
      ensures r.Ok? ==> fresh(r.value) && r.value.Valid() && r.value.size == size && r.value.accepted == {}
      ensures r.Err? ==> r.error == ValueError
    {
      if size < 1 {
        return Err(ValueError);
      }
      var window := new ReplayWindow(size);
      return Ok(window);
    }

    method Check(n: int) returns (r: Result<()>)
      requires Valid()
      ensures r == if Fresh(size, accepted, n) then Ok(()) else Err(ReplayError)
    {
      if !(0 <= n <= MAX_SEQ) {
        return Err(ReplayError);
      }
      if highest < 0 || n > highest {
        return Ok(());
      }
      var offset := highest - n;
      if offset >= size {
        return Err(ReplayError);
      }
      TestBit(bitmap, offset);
      if And(bitmap, ShiftLeft(1, offset)) != 0 {
        return Err(ReplayError);
      }
      return Ok(());
    }

    method Commit(n: int)
      requires Valid()
      modifies this
      ensures Valid() && accepted == old(accepted) + {n}
    {
      accepted := accepted + {n};
      if highest < 0 {
        highest := n;
        bitmap := 1;
        forall i: nat ensures Bit(bitmap, i) <==> i == 0 { BitOne(i); }
        return;
      }
      if n > highest {
        var shift := n - highest;
        if shift >= size {
          bitmap := 1;
          forall i: nat ensures Bit(bitmap, i) <==> i == 0 { BitOne(i); }
        } else {
          bitmap := And(Or(ShiftLeft(bitmap, shift), 1), mask);
          ShiftIn(size, old(highest), old(bitmap), old(accepted), n);
        }
        highest := n;
        return;
      }
      var offset := highest - n;
      if offset < size {
        bitmap := Or(bitmap, ShiftLeft(1, offset));
        forall i: nat ensures Bit(bitmap, i) <==> Bit(old(bitmap), i) || i == offset {
          BitOr(old(bitmap), ShiftLeft(1, offset), i);
          BitShift(1, offset, i);
          if i >= offset { BitOne(i - offset); }
        }
      }
    }

    method CheckAndUpdate(n: int) returns (r: Result<()>)
      requires Valid()
      modifies this
      ensures Valid()
      ensures r == if old(Fresh(size, accepted, n)) then Ok(()) else Err(ReplayError)
      ensures accepted == Update(size, old(accepted), n)
    {
      r := Check(n);
      if r.Ok? {
        Commit(n);
      }
    }
  }

  /** The bitmap never outgrows the window. */
  lemma BitmapBelowTwoToSize(size: nat, highest: int, bitmap: nat, accepted: set<int>)
    requires Represents(size, highest, bitmap, accepted)
    ensures bitmap < ShiftLeft(1, size)
  {
    BoundedByBits(bitmap, size);
  }

  /** The accepted set leaves no freedom: it fixes `highest` and the bitmap. */
  lemma RepresentationUnique(size: nat, h1: int, b1: nat, h2: int, b2: nat, accepted: set<int>)
    requires Represents(size, h1, b1, accepted) && Represents(size, h2, b2, accepted) && InRange(accepted)
    ensures h1 == h2 && b1 == b2
  {
    BitsExact(size, h1, b1, accepted, 0);
    BitsExact(size, h2, b2, accepted, 0);
    assert h1 == h2;
    forall i: nat ensures Bit(b1, i) <==> Bit(b2, i) {
      BitsExact(size, h1, b1, accepted, i);
      BitsExact(size, h2, b2, accepted, i);
    }
    SameBits(b1, b2);
  }

  ghost function Below(m: nat): (s: set<int>)
    ensures forall n :: n in s <==> 0 <= n < m
  {
    if m == 0 then {} else Below(m - 1) + {m - 1}
  }

  /** When exactly the first `m` numbers were accepted, the bitmap is `2^min(m, size) - 1`. */
  lemma InOrderBitmap(size: nat, highest: int, bitmap: nat, m: nat)
    requires Represents(size, highest, bitmap, Below(m))
    ensures highest == m - 1
    ensures bitmap == Pow(2, if m < size then m else size) - 1
  {
    var width := if m < size then m else size;
    BitsExact(size, highest, bitmap, Below(m), 0);
    if m > 0 { assert m - 1 in Below(m); }
    assert highest == m - 1;
    BitMask(width, 0);
    forall i: nat ensures Bit(bitmap, i) <==> Bit(ShiftLeft(1, width) - 1, i) {
      BitMask(width, i);
      BitsExact(size, highest, bitmap, Below(m), i);
    }
    SameBits(bitmap, ShiftLeft(1, width) - 1);
  }

  // ----- whole runs -----

  /** The accepted set after check-and-update of each number in turn. */
  ghost function After(size: nat, numbers: seq<int>): set<int> {
    if numbers == [] then {}
    else Update(size, After(size, numbers[..|numbers| - 1]), numbers[|numbers| - 1])
  }

  /** Whether the `i`-th number of a run is accepted. */
  ghost predicate Accepts(size: nat, numbers: seq<int>, i: nat)
    requires i < |numbers|
  {
    Fresh(size, After(size, numbers[..i]), numbers[i])
  }

  /** Whether a number is accepted does not depend on what follows it. */
  lemma AcceptsInPrefix(size: nat, numbers: seq<int>, k: nat)
    requires k <= |numbers|
    ensures forall i :: 0 <= i < k ==> (Accepts(size, numbers[..k], i) <==> Accepts(size, numbers, i))
  {
    forall i | 0 <= i < k ensures Accepts(size, numbers[..k], i) <==> Accepts(size, numbers, i) {
      assert numbers[..k][..i] == numbers[..i];
    }
  }

  /** The accepted set of a run holds the numbers accepted on the way and no others. */
  lemma {:induction false} AfterCollects(size: nat, numbers: seq<int>)
    ensures forall i :: 0 <= i < |numbers| && Accepts(size, numbers, i) ==> numbers[i] in After(size, numbers)
    ensures forall n :: n in After(size, numbers) ==>
              exists i :: 0 <= i < |numbers| && Accepts(size, numbers, i) && numbers[i] == n
  {
    if numbers != [] {
      var k := |numbers| - 1;
      var init := numbers[..k];
      AfterCollects(size, init);
      AcceptsInPrefix(size, numbers, k);
      forall i | 0 <= i < |numbers| && Accepts(size, numbers, i) ensures numbers[i] in After(size, numbers) {
        if i < k { assert Accepts(size, init, i) && init[i] == numbers[i]; }
      }
      forall n | n in After(size, numbers)
        ensures exists i :: 0 <= i < |numbers| && Accepts(size, numbers, i) && numbers[i] == n
      {
        if n in After(size, init) {
          var i :| 0 <= i < k && Accepts(size, init, i) && init[i] == n;
          assert Accepts(size, numbers, i) && numbers[i] == n;
        } else {
          assert Accepts(size, numbers, k) && numbers[k] == n;
        }
      }
    }
  }

  /** No number is ever accepted twice. */
  lemma AcceptedOnce(size: nat, numbers: seq<int>, i: nat, j: nat)
    requires i < j < |numbers|
    requires Accepts(size, numbers, i) && Accepts(size, numbers, j)
    ensures numbers[i] != numbers[j]
  {
    AfterCollects(size, numbers[..j]);
    AcceptsInPrefix(size, numbers, j);
    assert numbers[..j][i] == numbers[i];
  }

  /** Distinct in-range numbers in which none is overtaken by `size` or more. */
  ghost predicate BoundedReordering(size: nat, numbers: seq<int>) {
    && (forall i :: 0 <= i < |numbers| ==> 0 <= numbers[i] <= MAX_SEQ)
    && (forall i, j :: 0 <= i < j < |numbers| ==> numbers[i] != numbers[j] && numbers[i] - numbers[j] < size)
  }

  /** With every earlier number accepted, the last one is accepted exactly when it is in range,
      new, and not overtaken by `size` or more. */
  lemma LastAccepted(size: nat, numbers: seq<int>, k: nat)
    requires k < |numbers|
    requires forall i :: 0 <= i < k ==> Accepts(size, numbers, i)
    ensures Accepts(size, numbers, k) <==>
              && 0 <= numbers[k] <= MAX_SEQ
              && forall i :: 0 <= i < k ==> numbers[i] != numbers[k] && numbers[i] - numbers[k] < size
  {
    var init := numbers[..k];
    AfterCollects(size, init);
    AcceptsInPrefix(size, numbers, k);
    forall i | 0 <= i < k ensures numbers[i] in After(size, init) {
      assert Accepts(size, init, i) && init[i] == numbers[i];
    }
  }

  lemma LastStep(size: nat, numbers: seq<int>, k: nat)
    requires |numbers| == k + 1
    requires BoundedReordering(size, numbers[..k])
    ensures BoundedReordering(size, numbers) <==>
              && 0 <= numbers[k] <= MAX_SEQ
              && forall i :: 0 <= i < k ==> numbers[i] != numbers[k] && numbers[i] - numbers[k] < size
  {
    assert forall i :: 0 <= i < k ==> numbers[..k][i] == numbers[i];
  }

  /** A run is accepted entirely exactly when its reordering is bounded by the window. */
  lemma {:induction false} CompleteUnderBoundedReordering(size: nat, numbers: seq<int>)
    ensures (forall i :: 0 <= i < |numbers| ==> Accepts(size, numbers, i)) <==> BoundedReordering(size, numbers)
  {
    if numbers != [] {
      var k := |numbers| - 1;
      CompleteUnderBoundedReordering(size, numbers[..k]);
      AcceptsInPrefix(size, numbers, k);
      if forall i :: 0 <= i < k ==> Accepts(size, numbers, i) {
        LastAccepted(size, numbers, k);
        LastStep(size, numbers, k);
      } else {
        assert !BoundedReordering(size, numbers[..k]);
      }
    }
  }

  /** The window that is used when none is asked for tolerates being overtaken by less than 1024. */
  lemma CompleteByDefault(numbers: seq<int>)
    ensures (forall i :: 0 <= i < |numbers| ==> Accepts(DEFAULT_WINDOW_SIZE, numbers, i)) <==>
            BoundedReordering(1024, numbers)
  {
    CompleteUnderBoundedReordering(DEFAULT_WINDOW_SIZE, numbers);
  }

  /** One thing a holder of the window may do to it. */
  datatype Operation = CheckAndUpdate(n: int) | Commit(m: int)

  ghost function Operate(size: nat, accepted: set<int>, operations: seq<Operation>): set<int> {
    if operations == [] then accepted
    else
      var before := Operate(size, accepted, operations[..|operations| - 1]);
      match operations[|operations| - 1]
      case CheckAndUpdate(n) => Update(size, before, n)
      case Commit(m) => before + {m}
  }

  /** Once an in-range number is refused, it is refused for good, whatever is committed later. */
  lemma {:induction false} StalenessPermanent(size: nat, accepted: set<int>, operations: seq<Operation>, n: int)
    requires 0 <= n <= MAX_SEQ && !Fresh(size, accepted, n)
    ensures accepted <= Operate(size, accepted, operations)
    ensures !Fresh(size, Operate(size, accepted, operations), n)
  {
    if operations != [] {
      StalenessPermanent(size, accepted, operations[..|operations| - 1], n);
    }
  }
}
