/** Difficulty and gas limit of a block (`Vapash.cpp`; EIP-2, EIP-100, EIP-649). */
module VapashRules {
  import opened Bits

  const MAX: int := 0x1_0000000000000000000000000000000000000000000000000000000000000000

  type u256 = x: int | 0 <= x < MAX

  /** Arithmetic on u256 wraps around. */
  function Wrap(x: int): u256 {
    x % MAX
  }

  /** Division of big integers, towards zero. */
  function Quotient(x: int, y: int): int
    requires y > 0
  {
    if x >= 0 then x / y else -((-x) / y)
  }

  function Max(x: int, y: int): int {
    if x >= y then x else y
  }

  function Min(x: int, y: int): int {
    if x <= y then x else y
  }

  datatype Params = Params(
    minimumDifficulty: u256, difficultyBoundDivisor: u256, durationLimit: u256,
    homesteadForkBlock: u256, byzantiumForkBlock: u256,
    minGasLimit: u256, maxGasLimit: u256, gasLimitBoundDivisor: u256)

  predicate Usable(c: Params) {
    c.difficultyBoundDivisor > 0 && c.gasLimitBoundDivisor > 0
  }

  datatype Header = Header(number: u256, timestamp: u256, difficulty: u256, gasLimit: u256, gasUsed: u256, hasUncles: bool)

  // Difficulty

  predicate Frontier(c: Params, number: u256) {
    number < c.homesteadForkBlock
  }

  /** How many steps the difficulty moves, by the time since the parent. */
  function AdjFactor(c: Params, number: u256, timestamp: u256, parent: Header): int {
    var diff := timestamp - parent.timestamp;
    if number < c.byzantiumForkBlock then Max(1 - Quotient(diff, 10), -99)
    else Max((if parent.hasUncles then 2 else 1) - Quotient(diff, 9), -99)
  }

  function Target(c: Params, number: u256, timestamp: u256, parent: Header): int
    requires Usable(c)
  {
    if Frontier(c, number) then
      if timestamp >= Threshold(c, parent) then Wrap(parent.difficulty - Step(c, parent))
      else Wrap(parent.difficulty + Step(c, parent))
    else
      parent.difficulty + parent.difficulty / 2048 * AdjFactor(c, number, timestamp, parent)
  }

  function Threshold(c: Params, parent: Header): u256 {
    Wrap(parent.timestamp + c.durationLimit)
  }

  function Step(c: Params, parent: Header): u256
    requires Usable(c)
  {
    Share(parent.difficulty, c.difficultyBoundDivisor)
  }

  function Share(x: u256, divisor: u256): (r: u256)
    requires divisor > 0
    ensures r <= x
  {
    var r := x / divisor;
    assert r <= x by { ShareBound(x, divisor); }
    r
  }

  lemma ShareBound(x: int, d: int)
    requires x >= 0 && d > 0
    ensures 0 <= x / d <= x
  {
    var q := x / d;
    assert q >= 0;
    TimesMonotone(q, 1, d);
  }

  /** The block number the ice age goes by. */
  function IceAgeNumber(c: Params, number: u256, parent: Header): nat {
    var n := Wrap(parent.number + 1) % WORD;
    if number < c.byzantiumForkBlock then n else if n >= 3000000 then n - 3000000 else 0
  }

  function Bomb(c: Params, number: u256, parent: Header): nat {
    var periods := IceAgeNumber(c, number, parent) / 100000;
    if periods > 1 then Pow2(periods - 2) else 0
  }

  function Clamp(c: Params, x: int): (r: u256)
    ensures r >= c.minimumDifficulty
  {
    Min(Max(c.minimumDifficulty, x), MAX - 1)
  }

  /** `calculateDifficulty` for a block other than the genesis block. */
  function Difficulty(c: Params, number: u256, timestamp: u256, parent: Header): (r: u256)
    requires Usable(c)
    ensures c.minimumDifficulty <= r
  {
    Clamp(c, Target(c, number, timestamp, parent) + Bomb(c, number, parent))
  }

  ghost predicate NeverRises(c: Params, number: u256, parent: Header)
    requires Usable(c)
  {
    forall s: u256, t: u256 :: s <= t ==> Difficulty(c, number, s, parent) >= Difficulty(c, number, t, parent)
  }

  lemma QuotientMonotone(x: int, y: int, d: int)
    requires x <= y && d > 0
    ensures Quotient(x, d) <= Quotient(y, d)
  {
    if x >= 0 {
      DivMonotone(x, y, d);
    } else if y <= 0 {
      DivMonotone(-y, -x, d);
    } else {
      DivMonotone(0, -x, d);
      DivMonotone(0, y, d);
    }
  }

  lemma DivMonotone(x: int, y: int, d: int)
    requires 0 <= x <= y && d > 0
    ensures 0 <= x / d <= y / d
  {
    ShareBound(x, d);
    Scaled(d, y / d + 1, x / d);
  }

  lemma Scaled(d: nat, a: int, b: int)
    ensures a <= b ==> d * a <= d * b
  {
  }

  /** From Homestead on, a later block is never harder. */
  lemma LaterIsNoHarder(c: Params, number: u256, s: u256, t: u256, parent: Header)
    requires Usable(c) && !Frontier(c, number) && s <= t
    ensures Difficulty(c, number, s, parent) >= Difficulty(c, number, t, parent)
  {
    hide Bomb; hide Quotient;
    QuotientMonotone(s - parent.timestamp, t - parent.timestamp, 10);
    QuotientMonotone(s - parent.timestamp, t - parent.timestamp, 9);
    var a, b := AdjFactor(c, number, s, parent), AdjFactor(c, number, t, parent);
    assert a >= b;
    TimesMonotone(parent.difficulty / 2048, b, a);
  }

  lemma TimesMonotone(k: nat, x: int, y: int)
    requires x <= y
    ensures k * x <= k * y
  {
  }

  /** When the rise of a Frontier difficulty wraps around, and the clamping does not hide it. */
  predicate RiseWraps(c: Params, number: u256, parent: Header)
    requires Usable(c)
  {
    var rise, fall := parent.difficulty + Step(c, parent), parent.difficulty - Step(c, parent);
    var bomb := Bomb(c, number, parent);
    && rise >= MAX && rise - MAX < fall && Threshold(c, parent) > 0
    && fall + bomb > c.minimumDifficulty && rise - MAX + bomb < MAX - 1 && c.minimumDifficulty < MAX - 1
  }

  /** For a fixed parent the difficulty never rises with a later timestamp, exactly but for that. */
  lemma NeverRisesIff(c: Params, number: u256, parent: Header)
    requires Usable(c)
    ensures NeverRises(c, number, parent) <==> !(Frontier(c, number) && RiseWraps(c, number, parent))
  {
    hide Bomb; hide Share;
    if !Frontier(c, number) {
      forall s: u256, t: u256 | s <= t
        ensures Difficulty(c, number, s, parent) >= Difficulty(c, number, t, parent)
      {
        LaterIsNoHarder(c, number, s, t, parent);
      }
    } else {
      var rise, fall := parent.difficulty + Step(c, parent), parent.difficulty - Step(c, parent);
      assert Wrap(fall) == fall;
      assert Wrap(rise) == if rise < MAX then rise else rise - MAX;
      var late := Threshold(c, parent);
      if RiseWraps(c, number, parent) {
        assert Difficulty(c, number, 0, parent) < Difficulty(c, number, late, parent);
      }
    }
  }

  /** Such a wrap, and a difficulty that is next to nothing for a block in time and enormous for a late one. */
  lemma RiseCanWrap()
    ensures var c := Params(131072, 2048, 13, 1150000, 4370000, 5000, 0x7fffffffffffffff, 1024);
            var parent := Header(1, 1000, MAX - 1, 5000, 0, false);
            && RiseWraps(c, 2, parent)
            && Difficulty(c, 2, 1001, parent) < Difficulty(c, 2, 1013, parent)
  {
  }

  // Gas limit

  const GAS_FLOOR_TARGET: u256 := 3141562

  /** `childGasLimit`, by the parent's limit, the step and the usage. */
  function ChildGasLimit(g: u256, step: u256, usage: u256, floor: u256): u256 {
    if g < floor then Min(floor, Wrap(g + step - 1)) else Max(floor, Wrap(g - step + 1 + usage))
  }

  /** The share of its limit by which a child's may differ. */
  function GasStep(c: Params, parent: Header): u256
    requires Usable(c)
  {
    Share(parent.gasLimit, c.gasLimitBoundDivisor)
  }

  /** Six fifths of the gas used, by the divisor. */
  function Usage(c: Params, parent: Header): u256
    requires Usable(c)
  {
    Share(Wrap(parent.gasUsed * 6) / 5, c.gasLimitBoundDivisor)
  }

  predicate GasLimitAccepted(c: Params, limit: u256, g: u256, step: u256) {
    c.minGasLimit <= limit <= c.maxGasLimit && Wrap(g - step) < limit < Wrap(g + step)
  }

  predicate ValidParent(c: Params, parent: Header) {
    c.minGasLimit <= parent.gasLimit <= c.maxGasLimit && parent.gasUsed <= parent.gasLimit && 6 * c.maxGasLimit < MAX
  }

  /** When the limit chosen is one that is accepted: a step of at least one; less used than would raise the
      limit by a whole step; the floor not so low nor the ceiling so near as to be passed. */
  predicate RoomToMove(c: Params, g: u256, step: u256, usage: u256, floor: u256) {
    && step >= 1
    && (g < floor ==> floor <= c.maxGasLimit || g + step - 1 <= c.maxGasLimit)
    && (g >= floor ==>
          && usage + 1 < 2 * step
          && (floor >= c.minGasLimit || g + usage + 1 - step >= c.minGasLimit)
          && g + usage + 1 - step <= c.maxGasLimit)
  }

  /** Neither wraps for a valid parent. */
  lemma MovesBy(c: Params, parent: Header)
    requires Usable(c) && ValidParent(c, parent)
    ensures GasStep(c, parent) == parent.gasLimit / c.gasLimitBoundDivisor <= parent.gasLimit
    ensures Usage(c, parent) == parent.gasUsed * 6 / 5 / c.gasLimitBoundDivisor <= parent.gasLimit * 2
  {
    var u := parent.gasUsed * 6 / 5;
    assert Wrap(parent.gasUsed * 6) == parent.gasUsed * 6;
    ShareBound(u, c.gasLimitBoundDivisor);
  }

  /** The child of a valid parent gets an acceptable gas limit exactly when there is room to move. */
  lemma ChildGasLimitIff(c: Params, g: u256, step: u256, usage: u256, floor: u256)
    requires c.minGasLimit <= g <= c.maxGasLimit && 6 * c.maxGasLimit < MAX && step <= g && usage <= 2 * g
    ensures GasLimitAccepted(c, ChildGasLimit(g, step, usage, floor), g, step) <==> RoomToMove(c, g, step, usage, floor)
  {
    hide Wrap;
    InRange(g - step);
    InRange(g + step);
    InRange(g - step + 1 + usage);
    if g + step >= 1 {
      InRange(g + step - 1);
    }
  }

  /** How the gas limit moves from g: up by at most a step less one towards the floor; from there on down by a step
      less one, but up by a rise, and not below the floor. */
  predicate MovesTo(g: int, step: int, rise: int, floor: int, limit: int) {
    var up, down := g + step - 1, g - step + 1 + rise;
    limit == if g < floor then (if g == 0 || floor <= up then floor else up)
             else (if floor >= down then floor else down)
  }

  /** The gas limit itself. */
  lemma ChildGasLimitIs(g: u256, step: u256, usage: u256, floor: u256)
    requires 6 * g < MAX && step <= g && usage <= 2 * g
    ensures MovesTo(g, step, usage, floor, ChildGasLimit(g, step, usage, floor))
  {
    hide Wrap;
    if g > 0 {
      InRange(g + step - 1);
    } else {
      WrapsBelow();
    }
    InRange(g - step + 1 + usage);
  }

  lemma WrapsBelow()
    ensures Wrap(-1) == MAX - 1 == 115792089237316195423570985008687907853269984665640564039457584007913129639935
  {
  }

  lemma InRange(x: int)
    requires 0 <= x < MAX
    ensures Wrap(x) == x
  {
  }

  /** Three steps of gas, a floor target in range and a step of room below the maximum are enough. */
  lemma EnoughRoom(c: Params, parent: Header, floor: u256)
    requires Usable(c) && ValidParent(c, parent)
    requires parent.gasLimit >= 3 * c.gasLimitBoundDivisor && c.minGasLimit <= floor <= c.maxGasLimit
    requires parent.gasLimit + parent.gasLimit / c.gasLimitBoundDivisor <= c.maxGasLimit
    ensures RoomToMove(c, parent.gasLimit, GasStep(c, parent), Usage(c, parent), floor)
  {
    MovesBy(c, parent);
    UsedShare(parent.gasUsed, parent.gasLimit, c.gasLimitBoundDivisor);
  }

  lemma UsedShare(used: nat, g: nat, d: nat)
    requires used <= g && d > 0 && g >= 3 * d
    ensures used * 6 / 5 / d + 1 < 2 * (g / d) && g / d >= 3
  {
    var q, u := g / d, used * 6 / 5;
    var p := u / d;
    Scaled(d, q, 2);
    Scaled(d, 3, q);
    Scaled(d, 2 * q - 1, p);
    Bounds(d, q, p, u, g, d * q, d * p);
  }

  lemma Bounds(d: nat, q: int, p: int, u: int, g: int, dq: int, dp: int)
    requires d > 0 && dq <= g < dq + d && dp <= u && 5 * u <= 6 * g && g >= 3 * d
    requires (q <= 2 ==> dq <= 2 * d) && (3 <= q ==> 3 * d <= dq) && (2 * q - 1 <= p ==> 2 * dq - d <= dp)
    ensures q >= 3 && p + 1 < 2 * q
  {
  }

  /** With less than three steps of gas, a full parent can get a child that its own rules refuse. */
  lemma FullParentStuck()
    ensures var c := Params(131072, 2048, 13, 1150000, 4370000, 1000, 0x7fffffffffffffff, 1024);
            var parent := Header(1, 1000, 131072, 3000, 3000, false);
            && ValidParent(c, parent) && GasStep(c, parent) == 2 && Usage(c, parent) == 3
            && !GasLimitAccepted(c, ChildGasLimit(3000, 2, 3, 2000), 3000, 2)
  {
    var c := Params(131072, 2048, 13, 1150000, 4370000, 1000, 0x7fffffffffffffff, 1024);
    var parent := Header(1, 1000, 131072, 3000, 3000, false);
    ChildGasLimitIff(c, 3000, 2, 3, 2000);
  }

  // Headers

  datatype Verdict = Accepted | GenesisBlock | InvalidNumber | TooMuchGasUsed | InvalidTimestamp
                   | InvalidDifficulty | InvalidGasLimit

  /** `verify` against a parent, as far as numbers, times, gas and difficulty go. */
  function Verify(c: Params, bi: Header, parent: Header): Verdict
    requires Usable(c)
  {
    if bi.number >= WORD then InvalidNumber
    else if bi.gasUsed > bi.gasLimit then TooMuchGasUsed
    else if bi.timestamp <= parent.timestamp then InvalidTimestamp
    else if bi.number != Wrap(parent.number + 1) then InvalidNumber
    else if bi.difficulty < c.minimumDifficulty then InvalidDifficulty
    else if bi.gasLimit < c.minGasLimit || bi.gasLimit > c.maxGasLimit then InvalidGasLimit
    else if bi.number == 0 then GenesisBlock
    else if bi.difficulty != Difficulty(c, bi.number, bi.timestamp, parent) then InvalidDifficulty
    else if !GasLimitAccepted(c, bi.gasLimit, parent.gasLimit, GasStep(c, parent)) then InvalidGasLimit
    else Accepted
  }

  /** What is accepted after a valid parent: the next number, a later time, gas used within the limit, the
      difficulty calculated, and a gas limit within its range and less than a step from the parent's. */
  lemma AcceptedIff(c: Params, bi: Header, parent: Header)
    requires Usable(c) && ValidParent(c, parent) && parent.number + 1 < MAX
    ensures var g, step := parent.gasLimit, parent.gasLimit / c.gasLimitBoundDivisor;
            Verify(c, bi, parent) == Accepted <==>
            && bi.number == parent.number + 1 < 0x1_0000_0000 && bi.timestamp > parent.timestamp
            && bi.gasUsed <= bi.gasLimit && c.minGasLimit <= bi.gasLimit <= c.maxGasLimit
            && g - step < bi.gasLimit < g + step
            && bi.difficulty == Difficulty(c, bi.number, bi.timestamp, parent)
  {
    hide Difficulty; hide Wrap;
    ShareBound(parent.gasLimit, c.gasLimitBoundDivisor);
    var g, step := parent.gasLimit, parent.gasLimit / c.gasLimitBoundDivisor;
    InRange(parent.number + 1);
    InRange(g - step);
    InRange(g + step);
  }

  class BlockHeader {
    var number: u256
    var timestamp: u256
    var difficulty: u256
    var gasLimit: u256
    var gasUsed: u256
    var hasUncles: bool

    function Value(): Header
      reads this
    {
      Header(number, timestamp, difficulty, gasLimit, gasUsed, hasUncles)
    }

    /** `populateFromParent`, for a header whose timestamp is set. Whatever gas the block then uses within its
        limit, it is accepted after a valid parent exactly when there is room for the gas limit to move. */
    method PopulateFromParent(c: Params, parent: BlockHeader) returns (ok: bool)
      requires Usable(c) && parent != this
      modifies this
      ensures ok <==> parent.number != MAX - 1
      ensures timestamp == old(timestamp) && hasUncles == old(hasUncles) && gasUsed == 0
      ensures number == Wrap(parent.number + 1)
      ensures ok ==> difficulty == Difficulty(c, number, timestamp, parent.Value())
      ensures ok ==>
                var step, usage := GasStep(c, parent.Value()), Usage(c, parent.Value());
                gasLimit == ChildGasLimit(parent.gasLimit, step, usage, GAS_FLOOR_TARGET)
      ensures ok && ValidParent(c, parent.Value()) ==>
                MovesTo(parent.gasLimit, parent.gasLimit / c.gasLimitBoundDivisor,
                        parent.gasUsed * 6 / 5 / c.gasLimitBoundDivisor, 3141562, gasLimit)
      ensures ok && ValidParent(c, parent.Value()) && timestamp > parent.timestamp && parent.number + 1 < WORD ==>
                forall used: u256 :: used <= gasLimit ==>
                  (Verify(c, Value().(gasUsed := used), parent.Value()) == Accepted <==>
                     RoomToMove(c, parent.gasLimit, GasStep(c, parent.Value()), Usage(c, parent.Value()), GAS_FLOOR_TARGET))
    {
      hide Difficulty; hide ChildGasLimit; hide GasLimitAccepted; hide RoomToMove; hide MovesTo;
      number := Wrap(parent.number + 1);
      gasLimit := parent.gasLimit;
      difficulty := 1;
      gasUsed := 0;
      if number == 0 {
        return false;
      }
      ok := true;
      difficulty := Difficulty(c, number, timestamp, parent.Value());
      var step, usage := GasStep(c, parent.Value()), Usage(c, parent.Value());
      gasLimit := ChildGasLimit(parent.gasLimit, step, usage, GAS_FLOOR_TARGET);
      if ValidParent(c, parent.Value()) {
        MovesBy(c, parent.Value());
        hide GasStep; hide Usage;
        ChildGasLimitIff(c, parent.gasLimit, step, usage, GAS_FLOOR_TARGET);
        ChildGasLimitIs(parent.gasLimit, step, usage, GAS_FLOOR_TARGET);
        AcceptedInRange(c, gasLimit, parent.gasLimit, step);
      }
    }
  }

  lemma AcceptedInRange(c: Params, limit: u256, g: u256, step: u256)
    ensures GasLimitAccepted(c, limit, g, step) ==> c.minGasLimit <= limit <= c.maxGasLimit
  {
  }

  // The proposals

  /** The difficulty as EIP-2, EIP-100 and EIP-649 have it, and before them the Yellow Paper's Frontier rule. */
  function Proposed(c: Params, bi: Header, parent: Header): int
    requires Usable(c) && bi.timestamp > parent.timestamp
  {
    var elapsed := bi.timestamp - parent.timestamp;
    var d := parent.difficulty;
    var y := if parent.hasUncles then 2 else 1;
    var adjusted :=
      if bi.number < c.homesteadForkBlock then
        if elapsed < c.durationLimit then d + d / c.difficultyBoundDivisor else d - d / c.difficultyBoundDivisor
      else if bi.number < c.byzantiumForkBlock then d + d / 2048 * NotBelow(1 - elapsed / 10, -99)
      else d + d / 2048 * NotBelow(y - elapsed / 9, -99);
    adjusted + Explosion(if bi.number < c.byzantiumForkBlock then bi.number else NotBelow(bi.number - 3000000, 0))
  }

  function NotBelow(x: int, low: int): (r: int)
    ensures r >= low && r >= x && (r == low || r == x)
  {
    if x < low then low else x
  }

  function Explosion(number: nat): nat {
    if number < 200000 then 0 else Pow2(number / 100000 - 2)
  }

  /** A block that follows its parent gets the proposed difficulty, within the minimum and 2^256, if nothing
      wraps around. */
  lemma AsProposed(c: Params, bi: Header, parent: Header)
    requires Usable(c) && bi.timestamp > parent.timestamp && bi.number == parent.number + 1 < WORD
    requires parent.timestamp + c.durationLimit < MAX && parent.difficulty + parent.difficulty / c.difficultyBoundDivisor < MAX
    ensures var x := Proposed(c, bi, parent);
            Difficulty(c, bi.number, bi.timestamp, parent) ==
            if x < c.minimumDifficulty then c.minimumDifficulty else if x >= MAX then MAX - 1 else x
  {
    hide Bomb; hide Explosion; hide Target;
    BombIs(c, bi.number, parent);
    if Frontier(c, bi.number) {
      FrontierTarget(c, bi, parent);
    } else {
      LaterTarget(c, bi, parent);
    }
  }

  lemma FrontierTarget(c: Params, bi: Header, parent: Header)
    requires Usable(c) && bi.timestamp > parent.timestamp && Frontier(c, bi.number)
    requires parent.timestamp + c.durationLimit < MAX && parent.difficulty + parent.difficulty / c.difficultyBoundDivisor < MAX
    ensures var d, step := parent.difficulty, parent.difficulty / c.difficultyBoundDivisor;
            Target(c, bi.number, bi.timestamp, parent) ==
            if bi.timestamp - parent.timestamp < c.durationLimit then d + step else d - step
  {
    var d, step := parent.difficulty, Step(c, parent);
    assert step == parent.difficulty / c.difficultyBoundDivisor;
    hide Wrap; hide Step;
    InRange(parent.timestamp + c.durationLimit);
    InRange(d + step);
    InRange(d - step);
  }

  lemma LaterTarget(c: Params, bi: Header, parent: Header)
    requires Usable(c) && bi.timestamp > parent.timestamp && !Frontier(c, bi.number)
    ensures var elapsed := bi.timestamp - parent.timestamp;
            var adj := if bi.number < c.byzantiumForkBlock then NotBelow(1 - elapsed / 10, -99)
                       else NotBelow((if parent.hasUncles then 2 else 1) - elapsed / 9, -99);
            Target(c, bi.number, bi.timestamp, parent) == parent.difficulty + parent.difficulty / 2048 * adj
  {
  }

  lemma BombIs(c: Params, number: u256, parent: Header)
    requires number == parent.number + 1 < WORD
    ensures Bomb(c, number, parent) == Explosion(if number < c.byzantiumForkBlock then number else NotBelow(number - 3000000, 0))
  {
    hide Pow2; hide Wrap;
    InRange(parent.number + 1);
  }
}
