/**
 The memory tester (`memtest.cpp`): generators that are replayed in a filling
 and a comparing pass. A cell of `width` bits holds a number below 2^width.
 */
module MemTest {
  import opened Basics
  import opened Numerals

  datatype Kind = WalkingOne | WalkingZero | OwnAddress | MovingInv | MovingInvRand

  const MEMTEST_WALKING_ONE: nat := 1
  const MEMTEST_WALKING_ZERO: nat := 2
  const MEMTEST_OWN_ADDRESS: nat := 4
  const MEMTEST_MOVING_INVERSION_ZERO: nat := 8
  const MEMTEST_MOVING_INVERSION_55AA: nat := 16
  const MEMTEST_MOVING_INVERSION_RAND: nat := 32

  /** The k-th number that `rand` gives after `srand` of a seed. */
  type Random = (nat, nat) -> nat

  function Modulus(width: nat): (m: int)
    ensures m >= 1
  {
    Power(2, width)
  }

  function Inverse(x: int, width: nat): int {
    Modulus(width) - 1 - x
  }

  predicate Fits(x: int, width: nat) {
    0 <= x < Modulus(width)
  }

  // ----- generators

  /** The fields of a generator object and how far the random sequence has been used. */
  datatype State = State(pattern: int, step: nat, prev: int, seed: nat, drawn: nat)

  /** One 31-bit number of the sequence. */
  function Rand(random: Random, seed: nat, k: nat): (r: nat)
    ensures r < 0x8000_0000
  {
    random(seed, k) % 0x8000_0000
  }

  /** What the random generator draws for one cell: two numbers side by side in a cell of 64 bits. */
  function Draw(random: Random, width: nat, seed: nat, k: nat): int {
    if width == 64 then (Rand(random, seed, k) * 0x1_0000_0000 + Rand(random, seed, k + 1)) % Modulus(width)
    else Rand(random, seed, k) % Modulus(width)
  }

  function Draws(width: nat): nat {
    if width == 64 then 2 else 1
  }

  function Started(kind: Kind, seed: nat): State {
    if kind == MovingInvRand then State(0, 0, 0, seed, 0) else State(seed, 0, 0, 0, 0)
  }

  /** The value that `get` returns in a state. */
  function Value(kind: Kind, width: nat, random: Random, s: State): int {
    match kind
    case WalkingZero => Inverse(s.pattern, width)
    case MovingInvRand => if s.step % 2 == 0 then Draw(random, width, s.seed, s.drawn) else Inverse(s.prev, width)
    case _ => s.pattern
  }

  function Walked(pattern: int, width: nat): int {
    var p := (pattern * 2) % Modulus(width);
    if p == 0 then 1 else p
  }

  /** The state that `get` leaves. */
  function Advanced(kind: Kind, width: nat, random: Random, s: State): State {
    match kind
    case WalkingOne | WalkingZero => s.(pattern := Walked(s.pattern, width))
    case OwnAddress => s.(pattern := (s.pattern + 1) % Modulus(width))
    case MovingInv => s.(pattern := Inverse(s.pattern, width))
    case MovingInvRand =>
      if s.step % 2 == 0 then
        s.(step := s.step + 1, prev := Draw(random, width, s.seed, s.drawn), drawn := s.drawn + Draws(width))
      else s.(step := s.step + 1)
  }

  /** `get_type` */
  function TypeOf(kind: Kind, s: State): nat {
    match kind
    case WalkingOne => MEMTEST_WALKING_ONE
    case WalkingZero => MEMTEST_WALKING_ZERO
    case OwnAddress => MEMTEST_OWN_ADDRESS
    case MovingInv =>
      if s.pattern == 0 || s.pattern % 256 == 255 then MEMTEST_MOVING_INVERSION_ZERO
      else MEMTEST_MOVING_INVERSION_55AA
    case MovingInvRand => MEMTEST_MOVING_INVERSION_RAND
  }

  /** The state after `i` values. */
  function StateAt(kind: Kind, width: nat, random: Random, seed: nat, i: nat): State {
    if i == 0 then Started(kind, seed) else Advanced(kind, width, random, StateAt(kind, width, random, seed, i - 1))
  }

  /** What belongs in cell `i`. */
  function Cell(kind: Kind, width: nat, random: Random, seed: nat, i: nat): int {
    Value(kind, width, random, StateAt(kind, width, random, seed, i))
  }

  class Generator {
    const kind: Kind
    const width: nat
    const random: Random
    var pattern: int
    var step: nat
    var prev: int
    var seed: nat
    var drawn: nat

    ghost function View(): State
      reads this
    {
      State(pattern, step, prev, seed, drawn)
    }

    constructor (kind: Kind, width: nat, random: Random)
      ensures this.kind == kind && this.width == width && this.random == random
    {
      this.kind, this.width, this.random := kind, width, random;
      pattern, step, prev, seed, drawn := 0, 0, 0, 0, 0;
    }

    /** `init` */
    method Init(start: nat)
      modifies this
      ensures View() == Started(kind, start)
    {
      if kind == MovingInvRand {
        pattern, seed, drawn := 0, start, 0;
      } else {
        pattern, seed, drawn := start, 0, 0;
      }
      step, prev := 0, 0;
    }

    /** `get` */
    method Get() returns (ret: int)
      modifies this
      ensures ret == Value(kind, width, random, old(View()))
      ensures View() == Advanced(kind, width, random, old(View()))
    {
      match kind {
        case WalkingOne =>
          ret := pattern;
          Shift();
        case WalkingZero =>
          ret := Inverse(pattern, width);
          Shift();
        case OwnAddress =>
          ret := pattern;
          pattern := (pattern + 1) % Modulus(width);
        case MovingInv =>
          ret := pattern;
          pattern := Inverse(pattern, width);
        case MovingInvRand =>
          if step % 2 == 0 {
            ret := Draw(random, width, seed, drawn);
            drawn := drawn + Draws(width);
            prev := ret;
          } else {
            ret := Inverse(prev, width);
          }
          step := step + 1;
      }
    }

    method Shift()
      modifies this`pattern
      ensures pattern == Walked(old(pattern), width)
    {
      pattern := (pattern * 2) % Modulus(width);
      if 0 == pattern {
        pattern := 1;
      }
    }

    function GetType(): nat
      reads this
    {
      TypeOf(kind, State(pattern, step, prev, seed, drawn))
    }
  }

  // ----- the two passes

  /** A call of the error callback, whose values are 32 bits wide. */
  datatype Report = Silent | Report(kind: nat, index: nat, bytes: nat, got: int, want: int)

  /** The cells of a filled area. */
  function Filled(kind: Kind, width: nat, random: Random, seed: nat, steps: nat): (r: seq<int>)
    ensures |r| == steps && forall i :: 0 <= i < steps ==> r[i] == Cell(kind, width, random, seed, i)
  {
    seq(steps, i requires 0 <= i => Cell(kind, width, random, seed, i))
  }

  method Fill(g: Generator, seed: nat, mem: array<int>)
    modifies g, mem
    ensures mem[..] == Filled(g.kind, g.width, g.random, seed, mem.Length)
  {
    hide Advanced, Value, Started;
    g.Init(seed);
    var i := 0;
    StartedAt(g.kind, g.width, g.random, seed);
    while i < mem.Length
      invariant 0 <= i <= mem.Length
      invariant g.View() == StateAt(g.kind, g.width, g.random, seed, i)
      invariant forall k :: 0 <= k < i ==> mem[k] == Cell(g.kind, g.width, g.random, seed, k)
    {
      var x := g.Get();
      mem[i] := x;
      AdvancedAt(g.kind, g.width, g.random, seed, i);
      i := i + 1;
    }
  }

  lemma StartedAt(kind: Kind, width: nat, random: Random, seed: nat)
    ensures StateAt(kind, width, random, seed, 0) == Started(kind, seed)
  {
  }

  lemma AdvancedAt(kind: Kind, width: nat, random: Random, seed: nat, i: nat)
    ensures StateAt(kind, width, random, seed, i + 1)
            == Advanced(kind, width, random, StateAt(kind, width, random, seed, i))
  {
  }

  /** A call is made exactly when a cell has changed, once, for the lowest one. */
  ghost predicate Reported(kind: Kind, width: nat, random: Random, seed: nat, mem: seq<int>, errcb: bool, r: Report) {
    && (!errcb ==> r == Silent)
    && (errcb ==> (r == Silent <==> mem == Filled(kind, width, random, seed, |mem|)))
    && (r.Report? ==>
          && r.index < |mem|
          && mem[r.index] != Cell(kind, width, random, seed, r.index)
          && (forall k :: 0 <= k < r.index ==> mem[k] == Cell(kind, width, random, seed, k))
          && r.kind == TypeOf(kind, StateAt(kind, width, random, seed, r.index + 1))
          && r.bytes == width / 8
          && r.got == mem[r.index] % 0x1_0000_0000
          && r.want == Cell(kind, width, random, seed, r.index) % 0x1_0000_0000)
  }

  method Compare(g: Generator, seed: nat, mem: array<int>, errcb: bool) returns (r: Report)
    modifies g
    ensures Reported(g.kind, g.width, g.random, seed, mem[..], errcb, r)
  {
    hide Advanced, Value, Started, TypeOf;
    g.Init(seed);
    var i := 0;
    StartedAt(g.kind, g.width, g.random, seed);
    while i < mem.Length
      invariant 0 <= i <= mem.Length
      invariant g.View() == StateAt(g.kind, g.width, g.random, seed, i)
      invariant errcb ==> forall k :: 0 <= k < i ==> mem[k] == Cell(g.kind, g.width, g.random, seed, k)
    {
      var got := mem[i];
      var want := g.Get();
      AdvancedAt(g.kind, g.width, g.random, seed, i);
      if got != want && errcb {
        r := Report(g.GetType(), i, g.width / 8, got % 0x1_0000_0000, want % 0x1_0000_0000);
        assert mem[..][i] != Filled(g.kind, g.width, g.random, seed, mem.Length)[i];
        return;
      }
      i := i + 1;
    }
    return Silent;
  }

  /** What happens to the memory between the passes: the cells are found as `after`. */
  method Disturb(mem: array<int>, after: seq<int>)
    requires |after| == mem.Length
    modifies mem
    ensures mem[..] == after
  {
    forall i | 0 <= i < mem.Length {
      mem[i] := after[i];
    }
  }

  /** `memtest_sequential`: fills, lets the memory be, and compares. */
  method Sequential(g: Generator, seed: nat, mem: array<int>, after: seq<int>, errcb: bool) returns (r: Report)
    requires |after| == mem.Length
    modifies g, mem
    ensures Reported(g.kind, g.width, g.random, seed, after, errcb, r)
  {
    hide Reported;
    Fill(g, seed, mem);
    Disturb(mem, after);
    r := Compare(g, seed, mem, errcb);
  }

  // ----- the cells in closed form

  lemma PowerLess(k: nat, width: nat)
    requires k < width
    ensures 2 * Power(2, k) <= Power(2, width)
    ensures 2 * Power(2, k) == Power(2, width) <==> k + 1 == width
    decreases width
  {
    if k + 1 < width {
      PowerLess(k, width - 1);
    }
  }

  lemma NextRemainder(i: nat, width: nat)
    requires width > 0
    ensures (i + 1) % width == if i % width + 1 == width then 0 else i % width + 1
  {
    var q, k := i / width, i % width;
    assert i == q * width + k;
    if k + 1 == width {
      ModIs(i + 1, width, q + 1, 0);
    } else {
      ModIs(i + 1, width, q, k + 1);
    }
  }

  /** A walking pattern that starts as 1 is 1 shifted by the cell number, modulo the width. */
  lemma {:induction false} WalkingPattern(kind: Kind, width: nat, random: Random, i: nat)
    requires (kind == WalkingOne || kind == WalkingZero) && width > 0
    ensures StateAt(kind, width, random, 1, i).pattern == Power(2, i % width)
  {
    if i > 0 {
      WalkingPattern(kind, width, random, i - 1);
      var k := (i - 1) % width;
      NextRemainder(i - 1, width);
      PowerLess(k, width);
      WalkedPower(k, width);
    }
  }

  lemma WalkedPower(k: nat, width: nat)
    requires k < width
    ensures Walked(Power(2, k), width) == if k + 1 == width then 1 else Power(2, k + 1)
  {
    PowerLess(k, width);
    assert Power(2, k + 1) == Power(2, k) * 2;
    hide Power;
    if k + 1 == width {
      ModIs(Power(2, width), Power(2, width), 1, 0);
    } else {
      ModIs(Power(2, k + 1), Power(2, width), 0, Power(2, k + 1));
    }
  }

  lemma WalkingOneCell(width: nat, random: Random, i: nat)
    requires width > 0
    ensures Cell(WalkingOne, width, random, 1, i) == Power(2, i % width)
  {
    WalkingPattern(WalkingOne, width, random, i);
  }

  lemma WalkingZeroCell(width: nat, random: Random, i: nat)
    requires width > 0
    ensures Cell(WalkingZero, width, random, 1, i) == Inverse(Power(2, i % width), width)
  {
    WalkingPattern(WalkingZero, width, random, i);
  }

  lemma {:induction false} OwnAddressCell(width: nat, random: Random, seed: nat, i: nat)
    requires Fits(seed, width)
    ensures Cell(OwnAddress, width, random, seed, i) == (seed + i) % Modulus(width)
  {
    hide Modulus;
    if i > 0 {
      OwnAddressCell(width, random, seed, i - 1);
      ModNext(seed + i - 1, Modulus(width));
    } else {
      ModIs(seed, Modulus(width), 0, seed);
    }
  }

  lemma ModNext(x: nat, m: int)
    requires m > 0
    ensures (x % m + 1) % m == (x + 1) % m
  {
    var q, r := x / m, x % m;
    assert x + 1 == q * m + (r + 1);
    if r + 1 < m {
      ModIs(x + 1, m, q, r + 1);
      ModIs(r + 1, m, 0, r + 1);
    } else {
      assert x + 1 == (q + 1) * m + 0;
      ModIs(x + 1, m, q + 1, 0);
      ModIs(r + 1, m, 1, 0);
    }
  }

  /** Cells written with their own addresses are equal exactly when they are a multiple of 2^width apart. */
  lemma OwnAddressDistinct(width: nat, random: Random, i: nat, j: nat)
    ensures Cell(OwnAddress, width, random, 0, i) == Cell(OwnAddress, width, random, 0, j)
       <==> i % Modulus(width) == j % Modulus(width)
  {
    OwnAddressCell(width, random, 0, i);
    OwnAddressCell(width, random, 0, j);
  }

  lemma {:induction false} MovingInvCell(width: nat, random: Random, seed: nat, i: nat)
    ensures Cell(MovingInv, width, random, seed, i) == if i % 2 == 0 then seed else Inverse(seed, width)
  {
    if i > 0 {
      MovingInvCell(width, random, seed, i - 1);
    }
  }

  /** The random cells: the draws in order, each followed by its inverse. */
  lemma {:induction false} MovingInvRandState(width: nat, random: Random, seed: nat, i: nat)
    ensures var s := StateAt(MovingInvRand, width, random, seed, i);
            && s.step == i && s.seed == seed
            && s.drawn == (i + 1) / 2 * Draws(width)
            && (i % 2 == 1 ==> s.prev == Draw(random, width, seed, i / 2 * Draws(width)))
  {
    hide Draw, Draws, StateAt;
    if i == 0 {
      StartedAt(MovingInvRand, width, random, seed);
    } else {
      MovingInvRandState(width, random, seed, i - 1);
      AdvancedAt(MovingInvRand, width, random, seed, i - 1);
      Distribute(i / 2, Draws(width));
      assert if i % 2 == 1 then (i + 1) / 2 == i / 2 + 1 && (i - 1) % 2 == 0
          else (i + 1) / 2 == i / 2 && (i - 1) % 2 == 1;
    }
  }

  lemma Distribute(q: int, d: int)
    ensures (q + 1) * d == q * d + d
  {
  }

  lemma MovingInvRandCell(width: nat, random: Random, seed: nat, i: nat)
    ensures var x := Draw(random, width, seed, i / 2 * Draws(width));
            Cell(MovingInvRand, width, random, seed, i) == if i % 2 == 0 then x else Inverse(x, width)
  {
    hide Draw, Draws;
    MovingInvRandState(width, random, seed, i);
  }

  // ----- what the tests find

  /** The callback is told what the cell should hold exactly when that fits in 32 bits. */
  lemma ReportedWantExactly(kind: Kind, width: nat, random: Random, seed: nat, mem: seq<int>, r: Report)
    requires Reported(kind, width, random, seed, mem, true, r) && r.Report?
    requires Fits(Cell(kind, width, random, seed, r.index), width)
    ensures r.want == Cell(kind, width, random, seed, r.index)
            <==> Cell(kind, width, random, seed, r.index) < 0x1_0000_0000
  {
    hide Cell, StateAt, TypeOf, Filled;
  }

  /** A cell that reads `fault(x)` after `x` was written. */
  ghost predicate Faulty(mem: seq<int>, written: seq<int>, i: nat, fault: int -> int) {
    i < |mem| == |written| && mem[i] == fault(written[i])
  }

  /**
   The two passes of the moving inversion write all zeros and all ones to
   every cell, so that a cell which loses either of them is reported.
   */
  lemma InversionFinds(width: nat, random: Random, first: seq<int>, second: seq<int>, i: nat, fault: int -> int,
                       r: Report, q: Report)
    requires |first| == |second|
    requires Faulty(first, Filled(MovingInv, width, random, 0, |first|), i, fault)
    requires Faulty(second, Filled(MovingInv, width, random, Modulus(width) - 1, |second|), i, fault)
    requires fault(0) != 0 || fault(Modulus(width) - 1) != Modulus(width) - 1
    requires Reported(MovingInv, width, random, 0, first, true, r)
    requires Reported(MovingInv, width, random, Modulus(width) - 1, second, true, q)
    ensures (r.Report? && r.index <= i) || (q.Report? && q.index <= i)
  {
    hide Cell, StateAt, TypeOf, Modulus;
    MovingInvCell(width, random, 0, i);
    MovingInvCell(width, random, Modulus(width) - 1, i);
    var one, two := Filled(MovingInv, width, random, 0, |first|),
        Filled(MovingInv, width, random, Modulus(width) - 1, |second|);
    assert first[i] != one[i] || second[i] != two[i];
  }

  /** `moving_inversion_zero`: both passes, whatever becomes of the memory in each. */
  method MovingInversionZero(g: Generator, mem: array<int>, first: seq<int>, second: seq<int>, errcb: bool)
    returns (r: Report, q: Report)
    requires g.kind == MovingInv && |first| == |second| == mem.Length
    modifies g, mem
    ensures Reported(MovingInv, g.width, g.random, 0, first, errcb, r)
    ensures Reported(MovingInv, g.width, g.random, Modulus(g.width) - 1, second, errcb, q)
  {
    hide Reported;
    var seed := 0;
    r := Sequential(g, seed, mem, first, errcb);
    seed := Inverse(seed, g.width);
    q := Sequential(g, seed, mem, second, errcb);
  }

  /** 0x55 in every byte. */
  function Fives(width: nat): nat
    requires width % 8 == 0
  {
    if width == 0 then 0 else 256 * Fives(width - 8) + 0x55
  }

  lemma {:induction false} FivesByte(width: nat)
    requires width % 8 == 0 && width > 0
    ensures Fives(width) % 256 == 0x55 && Fits(Fives(width), width)
    ensures Inverse(Fives(width), width) % 256 == 0xAA
  {
    var m, f := Power(2, width - 8), Fives(width - 8);
    if width == 8 {
      assert f == 0 && m == 1;
    } else {
      FivesByte(width - 8);
    }
    FivesStep(width, m, f);
  }

  lemma FivesStep(width: nat, m: int, f: nat)
    requires width % 8 == 0 && width > 0 && m == Power(2, width - 8) && f == Fives(width - 8) && f < m
    ensures Fives(width) % 256 == 0x55 && Fits(Fives(width), width)
    ensures Inverse(Fives(width), width) % 256 == 0xAA
  {
    hide Power;
    PowerTwo(width - 8);
    var x := Fives(width);
    assert x == 256 * f + 0x55;
    FivesNumbers(x, Power(2, width), m, f);
  }

  lemma FivesNumbers(x: nat, total: int, m: int, f: nat)
    requires f < m && total == 256 * m && x == 256 * f + 0x55
    ensures x % 256 == 0x55 && x < total && (total - 1 - x) % 256 == 0xAA
  {
    LowByte(f, 0x55);
    LowByte(m - 1 - f, 0xAA);
    assert total - 1 - x == 256 * (m - 1 - f) + 0xAA;
  }

  lemma LowByte(q: nat, r: nat)
    requires r < 256
    ensures (256 * q + r) % 256 == r
  {
  }

  /** Each inversion test names itself in its report, whatever cell has changed. */
  lemma InversionTypes(width: nat, random: Random, i: nat)
    requires width % 8 == 0 && width > 0
    ensures forall seed: nat :: seed == 0 || seed == Modulus(width) - 1 ==>
              TypeOf(MovingInv, StateAt(MovingInv, width, random, seed, i)) == MEMTEST_MOVING_INVERSION_ZERO
    ensures forall seed: nat :: seed == Fives(width) || seed == Inverse(Fives(width), width) ==>
              TypeOf(MovingInv, StateAt(MovingInv, width, random, seed, i)) == MEMTEST_MOVING_INVERSION_55AA
  {
    hide StateAt, Fives;
    FivesByte(width);
    OnesByte(width);
    forall seed: nat
      ensures StateAt(MovingInv, width, random, seed, i).pattern == if i % 2 == 0 then seed else Inverse(seed, width)
    {
      MovingInvCell(width, random, seed, i);
    }
  }

  /** The type that each of the other tests reports, in every state. */
  lemma OtherTypes(s: State)
    ensures TypeOf(WalkingOne, s) == 1 && TypeOf(WalkingZero, s) == 2 && TypeOf(OwnAddress, s) == 4
    ensures TypeOf(MovingInvRand, s) == 32
  {
  }

  /** A cell of 64 bits has the first number drawn in its high half and the second in its low half. */
  lemma DrawWide(random: Random, seed: nat, k: nat)
    ensures Draw(random, 64, seed, k) / 0x1_0000_0000 == Rand(random, seed, k)
    ensures Draw(random, 64, seed, k) % 0x1_0000_0000 == Rand(random, seed, k + 1)
    ensures Draws(64) == 2
  {
    hide Power;
    var hi, lo := Rand(random, seed, k), Rand(random, seed, k + 1);
    var x := hi * 0x1_0000_0000 + lo;
    Wide();
    ModIs(x, Modulus(64), 0, x);
    ModIs(x, 0x1_0000_0000, hi, lo);
  }

  lemma Wide()
    ensures Modulus(64) == 0x1_0000_0000_0000_0000
  {
    PowerTwo32();
    PowerTwo(32);
    PowerTwo(40);
    PowerTwo(48);
    PowerTwo(56);
  }

  /** A smaller cell has the low bits of the number drawn. */
  lemma DrawNarrow(random: Random, width: nat, seed: nat, k: nat)
    requires width != 64
    ensures Draw(random, width, seed, k) == Rand(random, seed, k) % Power(2, width) && Draws(width) == 1
  {
  }

  lemma OnesByte(width: nat)
    requires width % 8 == 0 && width > 0
    ensures (Modulus(width) - 1) % 256 == 255
  {
    PowerTwo(width - 8);
  }
}
