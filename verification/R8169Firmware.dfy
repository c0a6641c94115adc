/** The r8169 PHY firmware: the static checks on an image, and the bytecode
    interpreter that relies on them. */
module R8169Firmware {
  import opened Wrappers

  type Byte = bv8
  type Word = bv32

  // ---------------------------------------------------------------- images

  const FW_OPCODE_SIZE: nat := 4
  const RTL_VER_SIZE: nat := 32
  // struct fw_info: magic, version, fw_start, fw_len, chksum, packed
  const FW_START_AT: nat := 4 + RTL_VER_SIZE
  const FW_LEN_AT: nat := FW_START_AT + 4
  const FW_INFO_SIZE: nat := FW_LEN_AT + 4 + 1

  /** The little-endian word at byte i. */
  function Le32(image: seq<Byte>, i: nat): Word
    requires i + 4 <= |image|
  {
    (image[i] as bv32) | ((image[i + 1] as bv32) << 8) | ((image[i + 2] as bv32) << 16) | ((image[i + 3] as bv32) << 24)
  }

  function Le32Nat(image: seq<Byte>, i: nat): nat
    requires i + 4 <= |image|
  {
    Le32(image, i) as nat
  }

  /** The sum of all bytes, in a byte. */
  function Checksum(image: seq<Byte>): Byte {
    if image == [] then 0 else Checksum(image[..|image| - 1]) + image[|image| - 1]
  }

  /** Where the code lies in an image. */
  datatype PhyAction = PhyAction(start: nat, size: nat)

  predicate HasInfo(image: seq<Byte>)
    requires |image| >= FW_OPCODE_SIZE
  {
    Le32(image, 0) == 0
  }

  /** An image with a header of its own: checksummed, its code inside the image. */
  ghost predicate InfoOk(image: seq<Byte>) {
    && |image| >= FW_INFO_SIZE && Checksum(image) == 0
    && Le32Nat(image, FW_START_AT) + FW_OPCODE_SIZE * Le32Nat(image, FW_LEN_AT) <= |image|
  }

  ghost predicate FormatAccepted(image: seq<Byte>) {
    |image| >= FW_OPCODE_SIZE && if HasInfo(image) then InfoOk(image) else |image| % FW_OPCODE_SIZE == 0
  }

  /** Where the code of an accepted image lies. */
  ghost function CodeAt(image: seq<Byte>): (pa: PhyAction)
    requires FormatAccepted(image)
    ensures pa.start + FW_OPCODE_SIZE * pa.size <= |image|
  {
    if HasInfo(image) then PhyAction(Le32Nat(image, FW_START_AT), Le32Nat(image, FW_LEN_AT))
    else PhyAction(0, |image| / FW_OPCODE_SIZE)
  }

  /** rtl_fw_format_ok: an image is accepted exactly when it carries an intact
      header or is a whole number of words, and the code is then inside it. */
  method FormatOk(image: seq<Byte>) returns (r: Option<PhyAction>)
    ensures r.Some? <==> FormatAccepted(image)
    ensures r.Some? ==> r.value == CodeAt(image) && r.value.start + FW_OPCODE_SIZE * r.value.size <= |image|
  {
    hide Le32, Le32Nat;
    if |image| < FW_OPCODE_SIZE {
      return None;
    }
    if HasInfo(image) {
      if |image| < FW_INFO_SIZE {
        return None;
      }
      var checksum: Byte := 0;
      for i := 0 to |image|
        invariant checksum == Checksum(image[..i])
      {
        assert image[..i + 1][..i] == image[..i];
        checksum := checksum + image[i];
      }
      assert image[..|image|] == image;
      if checksum != 0 {
        return None;
      }
      var start := Le32Nat(image, FW_START_AT);
      if start > |image| {
        return None;
      }
      var size := Le32Nat(image, FW_LEN_AT);
      if size > (|image| - start) / FW_OPCODE_SIZE {
        return None;
      }
      return Some(PhyAction(start, size));
    } else {
      if |image| % FW_OPCODE_SIZE != 0 {
        return None;
      }
      return Some(PhyAction(0, |image| / FW_OPCODE_SIZE));
    }
  }

  /** The words of the code. */
  function Code(image: seq<Byte>, pa: PhyAction): (code: seq<Word>)
    requires pa.start + FW_OPCODE_SIZE * pa.size <= |image|
    ensures |code| == pa.size
  {
    seq(pa.size, i requires 0 <= i < pa.size => Le32(image, pa.start + FW_OPCODE_SIZE * i))
  }

  // -------------------------------------------------------------- bytecode

  datatype Op =
    | ReadPhy | DataOr | DataAnd | Bjmpn | MdioChg | ClearReadcount | WritePhy | ReadcountEqSkip
    | CompEqSkipn | CompNeqSkipn | WritePrevious | Skipn | DelayMs | Unknown

  function OpOf(a: Word): Op {
    match a & 0xf0000000
    case 0x00000000 => ReadPhy
    case 0x10000000 => DataOr
    case 0x20000000 => DataAnd
    case 0x30000000 => Bjmpn
    case 0x40000000 => MdioChg
    case 0x70000000 => ClearReadcount
    case 0x80000000 => WritePhy
    case 0x90000000 => ReadcountEqSkip
    case 0xa0000000 => CompEqSkipn
    case 0xb0000000 => CompNeqSkipn
    case 0xc0000000 => WritePrevious
    case 0xd0000000 => Skipn
    case 0xe0000000 => DelayMs
    case _ => Unknown
  }

  function Regno(a: Word): nat { ((a & 0x0fff0000) >> 16) as nat }

  function Data(a: Word): Word { a & 0x0000ffff }

  /** The word at index i is known, and every place it may lead to is a word of the code or, without a jump, its end. */
  predicate ActionOk(code: seq<Word>, i: nat)
    requires i < |code|
  {
    match OpOf(code[i])
    case Bjmpn => Regno(code[i]) <= i
    case ReadcountEqSkip => i + 2 < |code|
    case CompEqSkipn | CompNeqSkipn | Skipn => i + 1 + Regno(code[i]) < |code|
    case Unknown => false
    case _ => true
  }

  ghost predicate Accepted(code: seq<Word>) {
    forall i :: 0 <= i < |code| ==> ActionOk(code, i)
  }

  /** rtl_fw_data_ok */
  method DataOk(code: seq<Word>) returns (rc: bool)
    ensures rc <==> Accepted(code)
  {
    hide Regno, OpOf;
    for index := 0 to |code|
      invariant forall i :: 0 <= i < index ==> ActionOk(code, i)
    {
      var action := code[index];
      var regno := Regno(action);
      assert Accepted(code) ==> ActionOk(code, index);
      match OpOf(action)
      case ReadPhy | DataOr | DataAnd | MdioChg | ClearReadcount | WritePhy | WritePrevious | DelayMs =>
      case Bjmpn =>
        if regno > index {
          return false;
        }
      case ReadcountEqSkip =>
        if index + 2 >= |code| {
          return false;
        }
      case CompEqSkipn | CompNeqSkipn | Skipn =>
        if index + 1 + regno >= |code| {
          return false;
        }
      case Unknown =>
        return false;
    }
    return true;
  }

  // ----------------------------------------------------------- interpreter

  /** The accessors in tp->mdio_ops: the ones set up by probe, or those of the MAC's MCU. */
  datatype MdioOps = Native(chip: nat) | MacMcu

  datatype Event = Read(ops: MdioOps, reg: nat) | Write(ops: MdioOps, reg: nat, val: Word) | Delay(ms: Word)

  datatype Machine = Machine(index: int, predata: Word, count: Word, ops: MdioOps, log: seq<Event>, jumps: nat)

  // u32 arithmetic, named so that proofs can leave it alone
  function Or(a: Word, b: Word): Word { a | b }

  function And(a: Word, b: Word): Word { a & b }

  function Inc(a: Word): Word { a + 1 }

  /** One turn of the loop of rtl_phy_write_fw; `phy` is what the PHY would answer
      to a read. None is BUG(). */
  function Step(code: seq<Word>, org: MdioOps, m: Machine, phy: Word): Option<Machine>
    requires 0 <= m.index < |code|
  {
    var action := code[m.index];
    var data := Data(action);
    var regno := Regno(action);
    var next := m.(index := m.index + 1);
    match OpOf(action)
    case ReadPhy => Some(next.(predata := phy, count := Inc(m.count), log := m.log + [Read(m.ops, regno)]))
    case DataOr => Some(next.(predata := Or(m.predata, data)))
    case DataAnd => Some(next.(predata := And(m.predata, data)))
    case Bjmpn => Some(m.(index := m.index - regno, jumps := m.jumps + 1))
    case MdioChg => Some(next.(ops := if data == 0 then org else if data == 1 then MacMcu else m.ops))
    case ClearReadcount => Some(next.(count := 0))
    case WritePhy => Some(next.(log := m.log + [Write(m.ops, regno, data)]))
    case ReadcountEqSkip => Some(m.(index := m.index + if m.count == data then 2 else 1))
    case CompEqSkipn => Some(m.(index := m.index + (if m.predata == data then regno else 0) + 1))
    case CompNeqSkipn => Some(m.(index := m.index + (if m.predata != data then regno else 0) + 1))
    case WritePrevious => Some(next.(log := m.log + [Write(m.ops, regno, m.predata)]))
    case Skipn => Some(m.(index := m.index + regno + 1))
    case DelayMs => Some(next.(log := m.log + [Delay(data)]))
    case Unknown => None
  }

  /** Past the end, or at an all-zero word. */
  predicate Halted(code: seq<Word>, m: Machine)
    requires 0 <= m.index
  {
    m.index >= |code| || code[m.index] == 0
  }

  datatype Outcome = Running(m: Machine) | Finished(m: Machine) | Crashed

  /** A run of at most |phy| turns, the PHY answering phy[n] in the n-th. A negative index is a crash. */
  function Run(code: seq<Word>, org: MdioOps, m: Machine, phy: seq<Word>): Outcome
    decreases |phy|
  {
    if m.index < 0 then Crashed
    else if Halted(code, m) then Finished(m.(ops := org))
    else if phy == [] then Running(m)
    else
      var next := Step(code, org, m, phy[0]);
      if next.None? then Crashed else Run(code, org, next.value, phy[1..])
  }

  function Start(org: MdioOps, log: seq<Event>): Machine {
    Machine(0, 0, 0, org, log, 0)
  }

  // ------------------------------------------------------------- soundness

  /** Accepted code takes the machine from word to word or to the end ... */
  lemma StepStays(code: seq<Word>, org: MdioOps, m: Machine, phy: Word)
    requires Accepted(code) && 0 <= m.index < |code|
    ensures var next := Step(code, org, m, phy);
            next.Some? && 0 <= next.value.index <= |code|
  {
    hide Regno, OpOf, Data, Or, And, Inc, Accepted;
    AcceptedAt(code, m.index);
  }

  lemma AcceptedAt(code: seq<Word>, i: nat)
    requires Accepted(code) && i < |code|
    ensures ActionOk(code, i)
  {
  }

  /** ... and forwards, but for jumps. */
  lemma StepMoves(code: seq<Word>, org: MdioOps, m: Machine, phy: Word)
    requires 0 <= m.index < |code| && Step(code, org, m, phy).Some?
    ensures var next := Step(code, org, m, phy).value;
            if OpOf(code[m.index]) == Bjmpn then next.jumps == m.jumps + 1
            else next.jumps == m.jumps && next.index > m.index
  {
    hide Regno, OpOf, Data, Or, And, Inc;
  }

  lemma StepOk(code: seq<Word>, org: MdioOps, m: Machine, phy: Word)
    requires Accepted(code) && 0 <= m.index < |code|
    ensures var next := Step(code, org, m, phy);
            && next.Some? && 0 <= next.value.index <= |code|
            && (next.value.jumps == m.jumps ==> next.value.index > m.index)
            && (next.value.jumps != m.jumps ==> next.value.jumps == m.jumps + 1 && next.value.index + |code| > m.index)
  {
    hide Step, Accepted, OpOf;
    StepStays(code, org, m, phy);
    StepMoves(code, org, m, phy);
  }

  /** Verifier soundness: whatever the PHY answers and however long it runs,
      accepted code never crashes the interpreter, stays inside the code, and on
      exit the original accessors are back. */
  lemma {:induction false} Sound(code: seq<Word>, org: MdioOps, m: Machine, phy: seq<Word>)
    requires Accepted(code) && 0 <= m.index <= |code|
    ensures var o := Run(code, org, m, phy);
            && !o.Crashed? && 0 <= o.m.index <= |code|
            && (o.Finished? ==> o.m.ops == org)
            && (o.Running? ==> o.m.index < |code|)
    decreases |phy|
  {
    hide Accepted, Step;
    if m.index < |code| && code[m.index] != 0 && phy != [] {
      StepOk(code, org, m, phy[0]);
      Sound(code, org, Step(code, org, m, phy[0]).value, phy[1..]);
    }
  }

  /** While it runs, the machine has made at most |code| turns for each jump taken, and |code| more. */
  lemma {:induction false} TurnsBound(code: seq<Word>, org: MdioOps, m: Machine, phy: seq<Word>)
    requires Accepted(code) && 0 <= m.index <= |code| && Run(code, org, m, phy).Running?
    ensures var o := Run(code, org, m, phy);
            o.m.jumps >= m.jumps && m.index + |phy| <= o.m.index + (o.m.jumps - m.jumps) * |code|
    decreases |phy|
  {
    hide Accepted, Step;
    if phy != [] {
      var next := Step(code, org, m, phy[0]);
      StepOk(code, org, m, phy[0]);
      TurnsBound(code, org, next.value, phy[1..]);
      var o := Run(code, org, m, phy);
      if next.value.jumps != m.jumps {
        assert (o.m.jumps - m.jumps) * |code| == (o.m.jumps - next.value.jumps) * |code| + |code|;
      }
    }
  }

  ghost predicate NoJumps(code: seq<Word>) {
    forall a <- code :: OpOf(a) != Bjmpn
  }

  /** Code without backward jumps finishes within as many turns as it has words. */
  lemma HaltsWithoutJumps(code: seq<Word>, org: MdioOps, log: seq<Event>, phy: seq<Word>)
    requires Accepted(code) && NoJumps(code) && |phy| >= |code|
    ensures Run(code, org, Start(org, log), phy).Finished?
  {
    hide Run, Step, NoJumps, Accepted;
    var m := Start(org, log);
    Sound(code, org, m, phy);
    if Run(code, org, m, phy).Running? {
      TurnsBound(code, org, m, phy);
      JumpsStay(code, org, m, phy);
    }
  }

  lemma {:induction false} JumpsStay(code: seq<Word>, org: MdioOps, m: Machine, phy: seq<Word>)
    requires NoJumps(code) && Run(code, org, m, phy).Running?
    ensures Run(code, org, m, phy).m.jumps == m.jumps
    decreases |phy|
  {
    hide OpOf, Regno, Data, Or, And, Inc;
    if phy != [] {
      assert code[m.index] in code;
      JumpsStay(code, org, Step(code, org, m, phy[0]).value, phy[1..]);
    }
  }

  /** Every word from lo to hi leads to one of them, whatever the registers hold. */
  ghost predicate Closed(code: seq<Word>, lo: nat, hi: nat) {
    lo <= hi < |code| && forall k :: lo <= k <= hi ==> StaysWithin(code, lo, hi, k)
  }

  predicate StaysWithin(code: seq<Word>, lo: nat, hi: nat, k: nat)
    requires k < |code|
  {
    && code[k] != 0
    && match OpOf(code[k])
       case Bjmpn => Regno(code[k]) <= k - lo
       case ReadcountEqSkip => k + 2 <= hi
       case CompEqSkipn | CompNeqSkipn | Skipn => k + 1 + Regno(code[k]) <= hi
       case Unknown => false
       case _ => k + 1 <= hi
  }

  lemma StepWithin(code: seq<Word>, org: MdioOps, m: Machine, phy: Word, lo: nat, hi: nat)
    requires Closed(code, lo, hi) && lo <= m.index <= hi
    ensures code[m.index] != 0 && Step(code, org, m, phy).Some? && lo <= Step(code, org, m, phy).value.index <= hi
  {
    hide OpOf, Regno, Data, Or, And, Inc;
    assert StaysWithin(code, lo, hi, m.index);
  }

  /** With jumps nothing of the kind holds. Once the machine is in a closed stretch of
      code, as a jump back over words that do not skip makes one, it never finishes. */
  lemma {:induction false} Trapped(code: seq<Word>, org: MdioOps, m: Machine, phy: seq<Word>, lo: nat, hi: nat)
    requires Closed(code, lo, hi) && lo <= m.index <= hi
    ensures var o := Run(code, org, m, phy);
            o.Running? && lo <= o.m.index <= hi
    decreases |phy|
  {
    hide Closed, Step;
    ClosedBounds(code, lo, hi);
    if phy != [] {
      StepWithin(code, org, m, phy[0], lo, hi);
      Trapped(code, org, Step(code, org, m, phy[0]).value, phy[1..], lo, hi);
    } else {
      StepWithin(code, org, m, 0, lo, hi);
    }
  }

  lemma ClosedBounds(code: seq<Word>, lo: nat, hi: nat)
    requires Closed(code, lo, hi)
    ensures lo <= hi < |code|
  {
  }

  /** Neither a skip nor a jump. */
  predicate Straight(op: Op) {
    !op.Bjmpn? && !op.ReadcountEqSkip? && !op.CompEqSkipn? && !op.CompNeqSkipn? && !op.Skipn? && !op.Unknown?
  }

  /** Straight words up to an all-zero one, or to the end, are run through. */
  lemma {:induction false} RunsThrough(code: seq<Word>, org: MdioOps, m: Machine, phy: seq<Word>, z: nat)
    requires z <= |code| && (z < |code| ==> code[z] == 0)
    requires forall k :: 0 <= k < z ==> code[k] != 0 && Straight(OpOf(code[k]))
    requires 0 <= m.index <= z && |phy| >= z - m.index
    ensures Run(code, org, m, phy).Finished?
    decreases |phy|
  {
    hide OpOf, Regno, Data, Or, And, Inc;
    if m.index < z {
      assert Straight(OpOf(code[m.index]));
      RunsThrough(code, org, Step(code, org, m, phy[0]).value, phy[1..], z);
    }
  }

  ghost predicate SkipFree(code: seq<Word>) {
    forall k :: 0 <= k < |code| ==> Straight(OpOf(code[k])) || OpOf(code[k]) == Bjmpn
  }

  /** An all-zero word comes before every jump. */
  ghost predicate StopsBeforeJumps(code: seq<Word>) {
    forall i :: 0 <= i < |code| && OpOf(code[i]) == Bjmpn ==> ZeroBefore(code, i)
  }

  ghost predicate ZeroBefore(code: seq<Word>, i: nat) {
    exists k :: 0 <= k < i && k < |code| && code[k] == 0
  }

  /** The first all-zero word, or the end. */
  function FirstStop(code: seq<Word>, from: nat): (z: nat)
    requires from <= |code|
    ensures from <= z <= |code| && (z < |code| ==> code[z] == 0) && forall k :: from <= k < z ==> code[k] != 0
    decreases |code| - from
  {
    if from == |code| || code[from] == 0 then from else FirstStop(code, from + 1)
  }

  /** The first jump, or the end. */
  function FirstJump(code: seq<Word>, from: nat): (j: nat)
    requires from <= |code|
    ensures from <= j <= |code| && (j < |code| ==> OpOf(code[j]) == Bjmpn)
    ensures forall k :: from <= k < j ==> OpOf(code[k]) != Bjmpn
    decreases |code| - from
  {
    if from == |code| || OpOf(code[from]) == Bjmpn then from else FirstJump(code, from + 1)
  }

  /** For code without skips the condition is exact: it finishes, and then within as
      many turns as it has words, if and only if an all-zero word comes before every jump. */
  lemma SkipFreeHaltsIff(code: seq<Word>, org: MdioOps, log: seq<Event>, phy: seq<Word>)
    requires Accepted(code) && SkipFree(code) && |phy| >= |code|
    ensures Run(code, org, Start(org, log), phy).Finished? <==> StopsBeforeJumps(code)
  {
    hide OpOf, Regno, Run, FirstStop, FirstJump;
    var z, j := FirstStop(code, 0), FirstJump(code, 0);
    if z <= j {
      RunsThrough(code, org, Start(org, log), phy, z);
      forall i | 0 <= i < |code| && OpOf(code[i]) == Bjmpn ensures ZeroBefore(code, i) {
        ZeroIsNoJump(code, i);
      }
    } else {
      FirstJumpCloses(code, j);
      Trapped(code, org, Start(org, log), phy, 0, j);
      assert !ZeroBefore(code, j);
    }
  }

  /** An all-zero word reads as a PHY read, so a jump is no such word. */
  lemma ZeroIsNoJump(code: seq<Word>, i: nat)
    requires i < |code| && OpOf(code[i]) == Bjmpn
    ensures code[i] != 0
  {
  }

  lemma FirstJumpCloses(code: seq<Word>, j: nat)
    requires Accepted(code) && SkipFree(code) && j < |code| && OpOf(code[j]) == Bjmpn
    requires forall k :: 0 <= k < j ==> code[k] != 0 && OpOf(code[k]) != Bjmpn
    ensures Closed(code, 0, j)
  {
    ZeroIsNoJump(code, j);
    hide OpOf, Regno;
    forall k | 0 <= k <= j ensures StaysWithin(code, 0, j, k) {
      assert ActionOk(code, k);
      assert Straight(OpOf(code[k])) || k == j;
    }
  }

  /** Accepted images that never end: a jump to itself, and a write with a jump back to it. */
  lemma EndlessPrograms(org: MdioOps, log: seq<Event>, phy: seq<Word>)
    ensures Accepted([0x30000000]) && Run([0x30000000], org, Start(org, log), phy).Running?
    ensures Accepted([0x80000000, 0x30010000]) && Run([0x80000000, 0x30010000], org, Start(org, log), phy).Running?
  {
    var one: seq<Word>, two: seq<Word> := [0x30000000], [0x80000000, 0x30010000];
    assert StaysWithin(one, 0, 0, 0);
    Trapped(one, org, Start(org, log), phy, 0, 0);
    assert StaysWithin(two, 0, 1, 0) && StaysWithin(two, 0, 1, 1);
    Trapped(two, org, Start(org, log), phy, 0, 1);
  }

  /** Read register 1, and again until it reads 0; then write. */
  const POLL: seq<Word> := [0x00010000, 0xa0010000, 0x30020000, 0x80000000]

  /** With skips, whether a run finishes is not a matter of the code alone: a loop that
      polls the PHY is accepted, finishes if the PHY answers 0, and never does if it answers 1. */
  lemma PollDependsOnPhy(org: MdioOps, log: seq<Event>, phy: seq<Word>)
    requires |phy| >= 3
    ensures Accepted(POLL)
    ensures phy[0] == 0 ==> Run(POLL, org, Start(org, log), phy).Finished?
    ensures (forall n :: 0 <= n < |phy| ==> phy[n] == 1) ==> !Run(POLL, org, Start(org, log), phy).Finished?
  {
    PollWords();
    hide OpOf, Regno, Data, Or, And, Inc;
    if phy[0] == 0 {
      PollEnds(org, Start(org, log), phy);
    }
    if forall n :: 0 <= n < |phy| ==> phy[n] == 1 {
      PollGoesOn(org, Start(org, log), phy);
    }
  }

  lemma PollWords()
    ensures OpOf(POLL[0]) == ReadPhy && OpOf(POLL[1]) == CompEqSkipn && OpOf(POLL[2]) == Bjmpn
        && OpOf(POLL[3]) == WritePhy
    ensures Regno(POLL[1]) == 1 && Data(POLL[1]) == 0 && Regno(POLL[2]) == 2
    ensures forall k :: 0 <= k < 4 ==> POLL[k] != 0
  {
  }

  lemma PollEnds(org: MdioOps, m: Machine, phy: seq<Word>)
    requires m.index == 0 && |phy| >= 3 && phy[0] == 0
    ensures Run(POLL, org, m, phy).Finished?
  {
    PollWords();
    hide OpOf, Regno, Data, Or, And, Inc;
    var m1 := Step(POLL, org, m, phy[0]).value;
    var m2 := Step(POLL, org, m1, phy[1..][0]).value;
    var m3 := Step(POLL, org, m2, phy[1..][1..][0]).value;
    assert m1.index == 1 && m2.index == 3 && m3.index == 4;
    assert Run(POLL, org, m3, phy[1..][1..][1..]).Finished?;
    assert Run(POLL, org, m2, phy[1..][1..]).Finished?;
  }

  lemma {:induction false} PollGoesOn(org: MdioOps, m: Machine, phy: seq<Word>)
    requires forall n :: 0 <= n < |phy| ==> phy[n] == 1
    requires 0 <= m.index <= 2 && (m.index > 0 ==> m.predata == 1)
    ensures Run(POLL, org, m, phy).Running?
    decreases |phy|
  {
    PollWords();
    hide OpOf, Regno, Data, Or, And, Inc;
    if phy != [] {
      PollGoesOn(org, Step(POLL, org, m, phy[0]).value, phy[1..]);
    }
  }

  /** Every byte the interpreter fetches lies inside the image. */
  lemma FetchInImage(image: seq<Byte>, pa: PhyAction, org: MdioOps, log: seq<Event>, phy: seq<Word>)
    requires pa.start + FW_OPCODE_SIZE * pa.size <= |image| && Accepted(Code(image, pa))
    ensures var o := Run(Code(image, pa), org, Start(org, log), phy);
            && !o.Crashed?
            && (o.Running? ==>
                  && 0 <= o.m.index < pa.size
                  && var at := pa.start + FW_OPCODE_SIZE * o.m.index;
                  0 <= at && at + FW_OPCODE_SIZE <= |image| && Code(image, pa)[o.m.index] == Le32(image, at))
  {
    hide Le32, Accepted, Run;
    Sound(Code(image, pa), org, Start(org, log), phy);
  }

  /** rtl_check_firmware: an image that passes is code the interpreter may run. */
  method CheckFirmware(image: seq<Byte>) returns (r: Option<PhyAction>)
    ensures r.Some? <==> FormatAccepted(image) && Accepted(Code(image, CodeAt(image)))
    ensures r.Some? ==> r.value == CodeAt(image) && r.value.start + FW_OPCODE_SIZE * r.value.size <= |image|
  {
    hide Accepted;
    r := FormatOk(image);
    if r.Some? {
      var rc := DataOk(Code(image, r.value));
      if !rc {
        return None;
      }
    }
  }

  lemma RunTurn(code: seq<Word>, org: MdioOps, m: Machine, phy: seq<Word>)
    requires 0 <= m.index < |code| && code[m.index] != 0 && phy != [] && Step(code, org, m, phy[0]).Some?
    ensures Run(code, org, m, phy) == Run(code, org, Step(code, org, m, phy[0]).value, phy[1..])
  {
  }

  lemma RunEnd(code: seq<Word>, org: MdioOps, m: Machine, phy: seq<Word>)
    requires 0 <= m.index && (Halted(code, m) || phy == [])
    ensures Run(code, org, m, phy) == if Halted(code, m) then Finished(m.(ops := org)) else Running(m)
  {
  }

  class Phy {
    var ops: MdioOps       // tp->mdio_ops
    var log: seq<Event>    // what the PHY has been told and asked

    /** rtl_phy_write_fw, cut off after |phy| turns, the PHY answering phy[n] in the n-th. BUG() is never reached. */
    method WriteFw(code: seq<Word>, phy: seq<Word>) returns (finished: bool)
      requires Accepted(code)
      modifies this
      ensures var o := Run(code, old(ops), Start(old(ops), old(log)), phy);
              && !o.Crashed? && finished == o.Finished? && log == o.m.log && ops == o.m.ops
      ensures finished ==> ops == old(ops)
    {
      hide Accepted, Run, Step;
      var org := ops;
      var predata: Word, count: Word, index: int := 0, 0, 0;
      var n, jumps := 0, 0;
      Sound(code, org, Start(org, log), phy);
      assert phy[0..] == phy;
      while index < |code| && n < |phy|
        invariant 0 <= index <= |code| && n <= |phy|
        invariant Run(code, org, Start(org, old(log)), phy) ==
            Run(code, org, Machine(index, predata, count, ops, log, jumps), phy[n..])
        decreases |phy| - n
      {
        if code[index] == 0 {
          break;
        }
        var m := Machine(index, predata, count, ops, log, jumps);
        StepOk(code, org, m, phy[n]);
        RunTurn(code, org, m, phy[n..]);
        assert phy[n..][1..] == phy[n + 1..];
        var next := Step(code, org, m, phy[n]).value;
        index, predata, count, jumps := next.index, next.predata, next.count, next.jumps;
        ops, log := next.ops, next.log;
        n := n + 1;
      }
      RunEnd(code, org, Machine(index, predata, count, ops, log, jumps), phy[n..]);
      finished := index >= |code| || code[index] == 0;
      if finished {
        ops := org;
      }
    }
  }
}
