/**
 * Signature synthesis: decoding instructions, wildcarding their displacements and immediates, and printing the rest.
 */
module AobBuild {
  import opened Alignment
  import opened Memory
  import opened Pattern

  // ---------- where an instruction's displacement is ----------

  datatype Displacement = Displacement(offset: nat, size: nat, ripRelative: bool)

  const NO_DISPLACEMENT := Displacement(0, 0, false)

  predicate IsLegacyPrefix(b: byte) {
    || b == 0x66 || b == 0x67 || b == 0x26 || b == 0x2E || b == 0x36 || b == 0x3E
    || b == 0x64 || b == 0x65 || b == 0xF0 || b == 0xF2 || b == 0xF3
  }

  /** `b & 0xF0 == 0x40` */
  predicate IsRex(b: byte) { 0x40 <= b < 0x50 }

  /** `modrm >> 6` */
  function ModBits(modrm: byte): int { modrm as int / 64 }

  /** `modrm & 7`, and `sib & 7` */
  function LowBits(b: byte): int { b as int % 8 }

  predicate HasSib(modrm: byte) { ModBits(modrm) != 3 && LowBits(modrm) == 4 }

  /** The displacement size that a ModR/M byte calls for, given the low bits of the SIB byte if there is one. */
  function DispSize(modrm: byte, sibBase: int): nat {
    var m, rm := ModBits(modrm), LowBits(modrm);
    if m == 0 && rm == 5 then 4
    else if m == 0 && rm == 4 && sibBase == 5 then 4
    else if m == 1 then 1
    else if m == 2 then 4
    else 0
  }

  /**
   * One instruction up to its displacement. Many opcodes have no ModR/M byte; `sib` counts only if it calls for one.
   * The escape and payload bytes of a VEX or EVEX encoding are part of `opcode`.
   */
  datatype Layout = Layout(prefixes: seq<byte>, rex: Option<byte>, opcode: seq<byte>, modrm: Option<byte>, sib: byte)

  /**
   * As the parser splits an instruction: the opcode bytes are one byte, or 0F and one byte, or 0F 38 or 0F 3A and one
   * byte, and no prefix hides in them.
   */
  predicate Parsed(l: Layout) {
    && (forall i :: 0 <= i < |l.prefixes| ==> IsLegacyPrefix(l.prefixes[i]))
    && (l.rex.Some? ==> IsRex(l.rex.value))
    && l.opcode != []
    && (l.rex == None ==> !IsLegacyPrefix(l.opcode[0]) && !IsRex(l.opcode[0]))
    && (if l.opcode[0] != 0x0F then |l.opcode| == 1
        else |l.opcode| > 1 && if l.opcode[1] == 0x38 || l.opcode[1] == 0x3A then |l.opcode| == 3 else |l.opcode| == 2)
  }

  /** The length of a VEX or EVEX escape with its payload and the opcode byte; 0 if the byte is not such an escape. */
  function VexLength(b: byte): nat { if b == 0xC5 then 3 else if b == 0xC4 then 4 else if b == 0x62 then 5 else 0 }

  predicate IsVex(l: Layout) { l.opcode != [] && VexLength(l.opcode[0]) > 0 }

  /** The encodings of 64-bit mode: the legacy opcode maps, and VEX and EVEX. */
  predicate WellFormed(l: Layout) {
    if IsVex(l) then
      && (forall i :: 0 <= i < |l.prefixes| ==> IsLegacyPrefix(l.prefixes[i]))
      && l.rex == None && |l.opcode| == VexLength(l.opcode[0])
    else Parsed(l)
  }

  function Rex(l: Layout): seq<byte> { if l.rex == None then [] else [l.rex.value] }

  function Addressing(l: Layout): seq<byte> {
    match l.modrm
    case None => []
    case Some(modrm) => if HasSib(modrm) then [modrm, l.sib] else [modrm]
  }

  function Emit(l: Layout): seq<byte> { l.prefixes + Rex(l) + l.opcode + Addressing(l) }

  function CountPrefixes(b: seq<byte>): (n: nat)
    ensures n <= |b|
    ensures forall i :: 0 <= i < n ==> IsLegacyPrefix(b[i])
    ensures n < |b| ==> !IsLegacyPrefix(b[n])
  {
    if b == [] || !IsLegacyPrefix(b[0]) then 0 else 1 + CountPrefixes(b[1..])
  }

  /** Where the opcode begins: behind the legacy prefixes and the REX prefix. */
  function OpcodeAt(b: seq<byte>): nat {
    var i := CountPrefixes(b);
    if i < |b| && IsRex(b[i]) then i + 1 else i
  }

  /** Where the ModR/M byte is, or past the end. */
  function ModrmAt(b: seq<byte>): nat {
    var i := OpcodeAt(b);
    if i < |b| && b[i] == 0x0F
    then if i + 1 < |b| && (b[i + 1] == 0x38 || b[i + 1] == 0x3A) then i + 3 else i + 2
    else i + 1
  }

  /** Where the ModR/M byte `modrm` is at `at`, the displacement begins behind it and its SIB byte. */
  function DisplacementAfter(at: nat, modrm: byte, sib: byte): Displacement {
    Displacement(at + (if HasSib(modrm) then 2 else 1), DispSize(modrm, if HasSib(modrm) then LowBits(sib) else 0),
                 ModBits(modrm) == 0 && LowBits(modrm) == 5)
  }

  function DisplacementOf(b: seq<byte>): Displacement {
    var i := ModrmAt(b);
    if i >= |b| || (HasSib(b[i]) && i + 1 >= |b|) then NO_DISPLACEMENT
    else DisplacementAfter(i, b[i], if i + 1 < |b| then b[i + 1] else 0)
  }

  /** `parse_displacement`, on one instruction's bytes. */
  method ParseDisplacement(b: seq<byte>) returns (d: Displacement)
    ensures d == DisplacementOf(b)
  {
    var i := 0;
    while i < |b| && IsLegacyPrefix(b[i])
      invariant 0 <= i <= CountPrefixes(b)
    {
      i := i + 1;
    }
    if i < |b| && IsRex(b[i]) {
      i := i + 1;
    }
    assert i == OpcodeAt(b);
    if i >= |b| {
      return NO_DISPLACEMENT;
    }
    if b[i] == 0x0F {
      i := i + 1;
      if i < |b| && (b[i] == 0x38 || b[i] == 0x3A) {
        i := i + 1;
      }
    }
    i := i + 1;
    assert i == ModrmAt(b);
    if i >= |b| {
      return NO_DISPLACEMENT;
    }
    var modrm := b[i];
    i := i + 1;
    var hasSib := ModBits(modrm) != 3 && LowBits(modrm) == 4;
    var sibBase := 0;
    if hasSib {
      if i >= |b| {
        return NO_DISPLACEMENT;
      }
      sibBase := LowBits(b[i]);
      i := i + 1;
    }
    var m, rm := ModBits(modrm), LowBits(modrm);
    if m == 0 && rm == 5 && !hasSib {
      d := Displacement(i, 4, true);
    } else if m == 0 && rm == 4 && sibBase == 5 {
      d := Displacement(i, 4, false);
    } else if m == 0 {
      d := Displacement(i, 0, false);
    } else if m == 1 {
      d := Displacement(i, 1, false);
    } else if m == 2 {
      d := Displacement(i, 4, false);
    } else {
      d := Displacement(i, 0, false);
    }
  }

  lemma {:induction false} PrefixesCounted(prefixes: seq<byte>, rest: seq<byte>)
    requires forall i :: 0 <= i < |prefixes| ==> IsLegacyPrefix(prefixes[i])
    requires rest != [] && !IsLegacyPrefix(rest[0])
    ensures CountPrefixes(prefixes + rest) == |prefixes|
  {
    if prefixes == [] {
      assert prefixes + rest == rest;
    } else {
      assert (prefixes + rest)[1..] == prefixes[1..] + rest;
      PrefixesCounted(prefixes[1..], rest);
    }
  }

  lemma OpcodeFound(l: Layout, rest: seq<byte>)
    requires Parsed(l)
    ensures OpcodeAt(Emit(l) + rest) == |l.prefixes| + |Rex(l)|
  {
    var b := Emit(l) + rest;
    var tail := Rex(l) + l.opcode + Addressing(l) + rest;
    assert b == l.prefixes + tail;
    PrefixesCounted(l.prefixes, tail);
    assert b[|l.prefixes|] == tail[0];
  }

  /** The ModR/M byte is looked for right behind the opcode. */
  lemma ModrmFound(l: Layout, rest: seq<byte>)
    requires Parsed(l)
    ensures ModrmAt(Emit(l) + rest) == |Emit(l)| - |Addressing(l)|
  {
    var b, at := Emit(l) + rest, |l.prefixes| + |Rex(l)|;
    OpcodeFound(l, rest);
    assert forall k :: 0 <= k < |l.opcode| ==> b[at + k] == l.opcode[k];
    assert |b| >= at + |l.opcode|;
    assert b[at] == l.opcode[0];
    if |l.opcode| > 1 {
      assert b[at + 1] == l.opcode[1];
    }
  }

  /**
   * For every legacy encoding with a ModR/M byte, the displacement begins right behind the ModR/M and SIB bytes and has
   * the size they call for.
   */
  lemma DisplacementFound(l: Layout, rest: seq<byte>)
    requires Parsed(l) && l.modrm.Some?
    ensures DisplacementOf(Emit(l) + rest)
            == Displacement(|Emit(l)|, DispSize(l.modrm.value, if HasSib(l.modrm.value) then LowBits(l.sib) else 0),
                            ModBits(l.modrm.value) == 0 && LowBits(l.modrm.value) == 5)
  {
    var b, at := Emit(l) + rest, |Emit(l)| - |Addressing(l)|;
    ModrmFound(l, rest);
    assert b[at] == Addressing(l)[0];
    assert HasSib(l.modrm.value) ==> b[at + 1] == Addressing(l)[1];
  }

  /** Without a ModR/M byte, the first bytes of the operand are taken for one. */
  lemma OperandTaken(l: Layout, operand: seq<byte>)
    requires Parsed(l) && l.modrm == None
    ensures DisplacementOf(Emit(l) + operand)
            == if operand == [] || (HasSib(operand[0]) && |operand| == 1) then NO_DISPLACEMENT
               else DisplacementAfter(|Emit(l)|, operand[0], if |operand| > 1 then operand[1] else 0)
  {
    var b, at := Emit(l) + operand, |Emit(l)|;
    ModrmFound(l, operand);
    assert forall k :: 0 <= k < |operand| ==> b[at + k] == operand[k];
  }

  /** The displacement lies within the instruction's length, as the decoder gives it. */
  predicate Fits(d: Displacement, len: nat) { d.size > 0 && d.offset + d.size <= len }

  /** The displacement that is wildcarded, and resolved if it is relative to the instruction pointer. */
  function Reported(instr: seq<byte>): Option<Displacement> {
    var d := DisplacementOf(instr);
    if Fits(d, |instr|) then Some(d) else None
  }

  /** The displacement that the instruction has. */
  function TrueDisplacement(l: Layout): Option<Displacement> {
    match l.modrm
    case None => None
    case Some(modrm) =>
      var d := DisplacementAfter(|Emit(l)| - |Addressing(l)|, modrm, l.sib);
      if d.size > 0 then Some(d) else None
  }

  /** Read as ModR/M and SIB bytes, the operand of an instruction that has none calls for a displacement that fits. */
  predicate LooksAddressed(operand: seq<byte>) {
    && operand != []
    && (HasSib(operand[0]) ==> |operand| > 1)
    && Fits(DisplacementAfter(0, operand[0], if |operand| > 1 then operand[1] else 0), |operand|)
  }

  /** Of a VEX or EVEX encoding, everything behind the escape byte is taken for an operand. */
  lemma PayloadTaken(l: Layout, rest: seq<byte>)
    requires WellFormed(l) && IsVex(l)
    ensures var operand := l.opcode[1..] + Addressing(l) + rest;
            DisplacementOf(Emit(l) + rest)
            == DisplacementAfter(|l.prefixes| + 1, operand[0], if |operand| > 1 then operand[1] else 0)
  {
    var operand := l.opcode[1..] + Addressing(l) + rest;
    var split := Layout(l.prefixes, None, [l.opcode[0]], None, 0);
    assert Emit(l) + rest == Emit(split) + operand;
    OperandTaken(split, operand);
  }

  /**
   * Whether the parser is right about a whole instruction: a legacy one with a ModR/M byte; a legacy one without, whose
   * operand does not look like one; or a VEX or EVEX encoding without displacement, of whose payload the same is true.
   */
  predicate ReadRight(l: Layout, rest: seq<byte>) {
    if IsVex(l) then TrueDisplacement(l) == None && !LooksAddressed(l.opcode[1..] + Addressing(l) + rest)
    else l.modrm.Some? || !LooksAddressed(rest)
  }

  lemma LegacyReportedIff(l: Layout, rest: seq<byte>)
    requires Parsed(l) && (TrueDisplacement(l).Some? ==> |rest| >= TrueDisplacement(l).value.size)
    ensures Reported(Emit(l) + rest) == TrueDisplacement(l) <==> l.modrm.Some? || !LooksAddressed(rest)
  {
    if l.modrm.Some? {
      DisplacementFound(l, rest);
    } else {
      OperandTaken(l, rest);
    }
  }

  lemma VexReportedIff(l: Layout, rest: seq<byte>)
    requires WellFormed(l) && IsVex(l)
    ensures Reported(Emit(l) + rest) == TrueDisplacement(l)
            <==> TrueDisplacement(l) == None && !LooksAddressed(l.opcode[1..] + Addressing(l) + rest)
  {
    PayloadTaken(l, rest);
    assert |Emit(l) + rest| == |l.prefixes| + 1 + |l.opcode[1..] + Addressing(l) + rest|;
  }

  /** The displacement reported for a whole instruction is the one it has, exactly under that condition. */
  lemma ReportedIff(l: Layout, rest: seq<byte>)
    requires WellFormed(l)
    requires TrueDisplacement(l).Some? ==> |rest| >= TrueDisplacement(l).value.size
    ensures Reported(Emit(l) + rest) == TrueDisplacement(l) <==> ReadRight(l, rest)
  {
    if IsVex(l) {
      VexReportedIff(l, rest);
    } else {
      LegacyReportedIff(l, rest);
    }
  }

  /** The immediate of `mov rax, 0x7766554433221105` is reported as an operand relative to the instruction pointer. */
  lemma ImmediateMisread()
    ensures Reported([0x48, 0xB8, 0x05, 0x11, 0x22, 0x33, 0x44, 0x55, 0x66, 0x77]) == Some(Displacement(3, 4, true))
  {
    var l := Layout([], Some(0x48), [0xB8], None, 0);
    var operand: seq<byte> := [0x05, 0x11, 0x22, 0x33, 0x44, 0x55, 0x66, 0x77];
    assert Emit(l) == [0x48, 0xB8];
    assert [0x48, 0xB8, 0x05, 0x11, 0x22, 0x33, 0x44, 0x55, 0x66, 0x77] == Emit(l) + operand;
    OperandTaken(l, operand);
    assert DisplacementAfter(2, 0x05, 0x11) == Displacement(3, 4, true);
  }

  /** The displacement of the VEX-encoded `vmovaps ymm0, [rip + 0x44332211]` is not found. */
  lemma VexMissed()
    ensures Reported([0xC5, 0xFC, 0x28, 0x05, 0x11, 0x22, 0x33, 0x44]) == None
  {
    PayloadTaken(Layout([], None, [0xC5, 0xFC, 0x28], Some(0x05), 0), [0x11, 0x22, 0x33, 0x44]);
    assert [0xC5, 0xFC, 0x28, 0x05, 0x11, 0x22, 0x33, 0x44]
           == Emit(Layout([], None, [0xC5, 0xFC, 0x28], Some(0x05), 0)) + [0x11, 0x22, 0x33, 0x44];
  }

  // ---------- building the pattern ----------

  /** What the instruction decoder says at one step: its length and the bytes of its immediate operands. */
  datatype Decoded = Invalid | Instr(len: nat, imm: nat)

  datatype BuildError = NoBytes | InvalidInstruction(at: nat) | RunsPast(at: nat) | NothingDecoded

  datatype Synthesis = Synthesis(pattern: string, ripRelative: bool, offset: nat, size: nat, included: nat)

  /** Where the `j`-th instruction starts. */
  function StartOf(supply: seq<Decoded>, j: nat): nat
    requires j <= |supply|
  {
    if j == 0 then 0
    else StartOf(supply, j - 1) + match supply[j - 1] case Invalid => 0 case Instr(len, _) => len
  }

  /** The `j`-th instruction is valid and lies within the bytes. */
  predicate DecodesAt(bytes: seq<byte>, supply: seq<Decoded>, j: nat) {
    j < |supply| && supply[j].Instr? && StartOf(supply, j) + supply[j].len <= |bytes|
  }

  /** The first `n` instructions are valid and lie within the bytes. */
  ghost predicate Decodes(bytes: seq<byte>, supply: seq<Decoded>, n: nat)
    requires n <= |supply|
  {
    forall j: nat | j < n :: DecodesAt(bytes, supply, j)
  }

  /** The bytes of the `j`-th instruction. */
  function InstrBytes(bytes: seq<byte>, supply: seq<Decoded>, j: nat): seq<byte>
    requires DecodesAt(bytes, supply, j)
  {
    bytes[StartOf(supply, j)..StartOf(supply, j) + supply[j].len]
  }

  /** Position `x` is in the displacement, or among the last immediate bytes, of an instruction at `start`. */
  predicate Volatile(instr: seq<byte>, imm: nat, start: nat, x: int) {
    || (Fits(DisplacementOf(instr), |instr|)
        && start + DisplacementOf(instr).offset <= x
        && x < start + DisplacementOf(instr).offset + DisplacementOf(instr).size)
    || start + |instr| - Min(imm, |instr|) <= x < start + |instr|
  }

  ghost predicate Wild(bytes: seq<byte>, supply: seq<Decoded>, n: nat, x: int)
    requires n <= |supply| && Decodes(bytes, supply, n)
  {
    exists j: nat ::
      && j < n
      && DecodesAt(bytes, supply, j)
      && Volatile(InstrBytes(bytes, supply, j), supply[j].imm, StartOf(supply, j), x)
  }

  /** What is kept of the bytes: the first `n` instructions with their volatile positions wildcarded. */
  ghost function Kept(bytes: seq<byte>, supply: seq<Decoded>, n: nat): (kept: seq<Option<byte>>)
    requires n <= |supply| && Decodes(bytes, supply, n) && StartOf(supply, n) <= |bytes|
    ensures |kept| == StartOf(supply, n)
    ensures forall x :: 0 <= x < |kept| ==> kept[x] == if Wild(bytes, supply, n, x) then None else Some(bytes[x])
  {
    seq(StartOf(supply, n), x requires 0 <= x < StartOf(supply, n) =>
      if Wild(bytes, supply, n, x) then None else Some(bytes[x]))
  }

  method Fill(a: array<bool>, lo: nat, hi: nat)
    requires lo <= hi <= a.Length
    modifies a
    ensures forall x :: 0 <= x < a.Length ==> a[x] == (lo <= x < hi || old(a[x]))
  {
    for k := lo to hi
      invariant forall x :: 0 <= x < a.Length ==> a[x] == (lo <= x < k || old(a[x]))
    {
      a[k] := true;
    }
  }

  /** Wildcard the volatile positions of one instruction. */
  method MarkInstruction(instr: seq<byte>, imm: nat, start: nat, wildcards: array<bool>) returns (d: Displacement)
    requires start + |instr| <= wildcards.Length
    modifies wildcards
    ensures d == DisplacementOf(instr)
    ensures forall x :: 0 <= x < wildcards.Length ==>
              wildcards[x] == (Volatile(instr, imm, start, x) || old(wildcards[x]))
  {
    var immSize := Min(imm, |instr|);
    d := ParseDisplacement(instr);
    if d.size > 0 && d.offset + d.size <= |instr| {
      Fill(wildcards, start + d.offset, start + d.offset + d.size);
    }
    if immSize > 0 {
      Fill(wildcards, start + |instr| - immSize, start + |instr|);
    }
  }

  /** The text of the first `n` positions: two hex digits, or `??` for a wildcard. */
  method PrintKept(bytes: seq<byte>, wildcards: array<bool>, n: nat, ghost kept: seq<Option<byte>>)
    returns (text: string)
    requires n <= |bytes| == wildcards.Length && |kept| == n
    requires forall x :: 0 <= x < n ==> kept[x] == if wildcards[x] then None else Some(bytes[x])
    ensures text == Print(kept)
  {
    text := [];
    for i := 0 to n
      invariant text == Print(kept[..i])
    {
      assert kept[..i + 1] == kept[..i] + [kept[i]];
      if i > 0 {
        PrintAppend(kept[..i], kept[i]);
        text := text + " ";
      }
      text := text + PrintByte(if wildcards[i] then None else Some(bytes[i]));
    }
    assert kept[..n] == kept;
  }

  /** The displacement of the `j`-th instruction, if it lies within the instruction. */
  function DisplacementAt(bytes: seq<byte>, supply: seq<Decoded>, j: nat): Option<Displacement>
    requires DecodesAt(bytes, supply, j)
  {
    Reported(InstrBytes(bytes, supply, j))
  }

  /**
   * The text with the resolve data: the place of the first displacement if it is relative to the instruction pointer.
   */
  function Resolved(text: string, first: Option<Displacement>, n: nat): Synthesis {
    if first.Some? && first.value.ripRelative
    then Synthesis(text, true, first.value.offset, first.value.size, n)
    else Synthesis(text, false, 0, 0, n)
  }

  lemma WildStep(bytes: seq<byte>, supply: seq<Decoded>, i: nat)
    requires i < |supply| && Decodes(bytes, supply, i + 1)
    ensures DecodesAt(bytes, supply, i)
    ensures forall x :: Wild(bytes, supply, i + 1, x)
                        <==> Volatile(InstrBytes(bytes, supply, i), supply[i].imm, StartOf(supply, i), x)
                             || Wild(bytes, supply, i, x)
  {
    assert DecodesAt(bytes, supply, i);
  }

  /** Exactly the volatile positions of the first `n` instructions are marked. */
  ghost predicate Marked(bytes: seq<byte>, supply: seq<Decoded>, n: nat, wildcards: seq<bool>)
    requires n <= |supply| && Decodes(bytes, supply, n)
  {
    |wildcards| == |bytes| && forall x :: 0 <= x < |bytes| ==> wildcards[x] == Wild(bytes, supply, n, x)
  }

  /** One more instruction that decodes: mark it. */
  method MarkNext(bytes: seq<byte>, supply: seq<Decoded>, i: nat, start: nat, wildcards: array<bool>)
    returns (found: Option<Displacement>)
    requires i < |supply| && Decodes(bytes, supply, i + 1) && start == StartOf(supply, i)
    requires Marked(bytes, supply, i, wildcards[..])
    modifies wildcards
    ensures DecodesAt(bytes, supply, i) && found == DisplacementAt(bytes, supply, i)
    ensures Marked(bytes, supply, i + 1, wildcards[..])
  {
    assert DecodesAt(bytes, supply, i);
    WildStep(bytes, supply, i);
    var d := MarkInstruction(bytes[start..start + supply[i].len], supply[i].imm, start, wildcards);
    found := if d.size > 0 && d.offset + d.size <= supply[i].len then Some(d) else None;
  }

  /** What is built from the first `n` instructions, if they decode to something. */
  ghost function Built(bytes: seq<byte>, supply: seq<Decoded>, maxInstr: nat): Option<Synthesis> {
    var n := Min(maxInstr, |supply|);
    if bytes != [] && Decodes(bytes, supply, n) && 0 < StartOf(supply, n) <= |bytes| && DecodesAt(bytes, supply, 0)
    then Some(Resolved(Print(Kept(bytes, supply, n)), DisplacementAt(bytes, supply, 0), n))
    else None
  }

  /** Instruction `j` is the first that does not decode, and it starts at `at`. */
  ghost predicate FailsAt(bytes: seq<byte>, supply: seq<Decoded>, j: nat, at: nat) {
    j < |supply| && Decodes(bytes, supply, j) && at == StartOf(supply, j) && !DecodesAt(bytes, supply, j)
  }

  /** The error that stops at instruction `j`. */
  ghost predicate StopsAt(bytes: seq<byte>, supply: seq<Decoded>, j: nat, error: BuildError) {
    match error
    case InvalidInstruction(at) => FailsAt(bytes, supply, j, at) && supply[j] == Invalid
    case RunsPast(at) => FailsAt(bytes, supply, j, at) && supply[j] != Invalid
    case _ => false
  }

  lemma StopBuildsNothing(bytes: seq<byte>, supply: seq<Decoded>, maxInstr: nat, j: nat, error: BuildError)
    requires j < Min(maxInstr, |supply|) && StopsAt(bytes, supply, j, error)
    ensures Built(bytes, supply, maxInstr) == None && !error.NoBytes? && !error.NothingDecoded?
  {
    assert !DecodesAt(bytes, supply, j);
  }

  /** One more instruction: mark it, unless it is invalid or runs past the bytes. */
  method DecodeNext(
      bytes: seq<byte>, supply: seq<Decoded>, i: nat, start: nat, wildcards: array<bool>,
      ghost disp: nat -> Option<Displacement>)
    returns (error: Option<BuildError>, found: Option<Displacement>)
    requires i < |supply| && Decodes(bytes, supply, i) && start == StartOf(supply, i)
    requires Marked(bytes, supply, i, wildcards[..])
    requires forall j {:trigger DisplacementAt(bytes, supply, j)} ::
               DecodesAt(bytes, supply, j) ==> disp(j) == DisplacementAt(bytes, supply, j)
    modifies wildcards
    ensures error.Some? ==> StopsAt(bytes, supply, i, error.value)
    ensures error == None ==> && DecodesAt(bytes, supply, i) && Decodes(bytes, supply, i + 1)
                              && Marked(bytes, supply, i + 1, wildcards[..]) && found == disp(i)
  {
    error, found := None, None;
    if supply[i] == Invalid {
      error := Some(InvalidInstruction(start));
      return;
    }
    if start + supply[i].len > |bytes| {
      error := Some(RunsPast(start));
      return;
    }
    found := MarkNext(bytes, supply, i, start, wildcards);
  }

  /**
   * The loop over the instructions, whose displacements `disp` gives: mark them all, or stop at the first that does not
   * decode.
   */
  method MarkAll(bytes: seq<byte>, supply: seq<Decoded>, n: nat, ghost disp: nat -> Option<Displacement>)
    returns (error: Option<BuildError>, wildcards: array<bool>, accumulated: nat, first: Option<Displacement>,
             ghost stop: nat)
    requires n <= |supply|
    requires forall j {:trigger DisplacementAt(bytes, supply, j)} ::
               DecodesAt(bytes, supply, j) ==> disp(j) == DisplacementAt(bytes, supply, j)
    ensures fresh(wildcards) && wildcards.Length == |bytes|
    ensures error == None ==>
              && Decodes(bytes, supply, n) && accumulated == StartOf(supply, n) <= |bytes|
              && Marked(bytes, supply, n, wildcards[..])
              && (n > 0 ==> first == disp(0))
    ensures error.Some? ==> stop < n && StopsAt(bytes, supply, stop, error.value)
  {
    error, accumulated, first, stop := None, 0, None, 0;
    wildcards := new bool[|bytes|](i => false);
    for i := 0 to n
      invariant error == None && accumulated == StartOf(supply, i) <= |bytes|
      invariant Decodes(bytes, supply, i) && Marked(bytes, supply, i, wildcards[..])
      invariant i > 0 ==> first == disp(0)
    {
      var found;
      error, found := DecodeNext(bytes, supply, i, accumulated, wildcards, disp);
      stop := i;
      if error.Some? {
        return;
      }
      if i == 0 {
        first := found;
      }
      accumulated := accumulated + supply[i].len;
    }
  }

  /** `build_pattern`, for any decoder: the text is what is kept of the instructions that were decoded. */
  method BuildPattern(bytes: seq<byte>, supply: seq<Decoded>, maxInstr: nat) returns (r: Result<Synthesis, BuildError>)
    ensures match r
            case Ok(syn) => Built(bytes, supply, maxInstr) == Some(syn)
            case Err(NoBytes) => bytes == []
            case Err(NothingDecoded) => bytes != [] && StartOf(supply, Min(maxInstr, |supply|)) == 0
            case Err(error) => exists j: nat :: j < maxInstr && StopsAt(bytes, supply, j, error)
    ensures r.Err? ==> Built(bytes, supply, maxInstr) == None
  {
    if bytes == [] {
      return Err(NoBytes);
    }
    var n := Min(maxInstr, |supply|);
    ghost var stop;
    var error, wildcards, accumulated, first;
    ghost var disp := (j: nat) => if DecodesAt(bytes, supply, j) then DisplacementAt(bytes, supply, j) else None;
    error, wildcards, accumulated, first, stop := MarkAll(bytes, supply, n, disp);
    if error.Some? {
      StopBuildsNothing(bytes, supply, maxInstr, stop, error.value);
      return Err(error.value);
    }
    if accumulated == 0 {
      return Err(NothingDecoded);
    }
    assert DecodesAt(bytes, supply, 0);
    var text := PrintKept(bytes, wildcards, accumulated, Kept(bytes, supply, n));
    return Ok(Resolved(text, first, n));
  }

  // ---------- what the printed pattern matches ----------

  /**
   * The printed text parses, if a literal is left, to a pattern that matches the bytes at offset 0 and is literal
   * exactly where nothing is volatile; without a literal it is refused as empty.
   */
  lemma BuiltPatternMatches(bytes: seq<byte>, supply: seq<Decoded>, n: nat, r: Result<Pattern, PatternError>)
    requires n <= |supply| && Decodes(bytes, supply, n) && StartOf(supply, n) <= |bytes|
    requires ParsedAs(Print(Kept(bytes, supply, n)), r)
    ensures r.Ok? <==> exists x :: 0 <= x < StartOf(supply, n) && !Wild(bytes, supply, n, x)
    ensures r.Ok? ==> MatchesAt(r.value, bytes, 0) && |r.value.bytes| == StartOf(supply, n)
    ensures r.Ok? ==> forall x :: 0 <= x < StartOf(supply, n) ==>
              (r.value.bytes[x].Some? <==> !Wild(bytes, supply, n, x))
    ensures r.Err? ==> r.error == EmptyPattern
  {
    var kept := Kept(bytes, supply, n);
    PrintRoundTrip(kept);
    if x :| 0 <= x < |kept| && !Wild(bytes, supply, n, x) {
      assert kept[x].Some?;
    }
  }

  /** The place that is to be resolved against the instruction pointer is four wildcards of the pattern. */
  lemma ResolvedOperandIsWild(bytes: seq<byte>, supply: seq<Decoded>, maxInstr: nat, x: nat)
    requires Built(bytes, supply, maxInstr).Some? && Built(bytes, supply, maxInstr).value.ripRelative
    requires var syn := Built(bytes, supply, maxInstr).value; syn.offset <= x < syn.offset + syn.size
    ensures Built(bytes, supply, maxInstr).value.size == 4
    ensures Wild(bytes, supply, Min(maxInstr, |supply|), x)
  {
    var d := DisplacementAt(bytes, supply, 0).value;
    assert d == DisplacementOf(InstrBytes(bytes, supply, 0));
    assert d.offset <= x < d.offset + d.size;
    assert Volatile(InstrBytes(bytes, supply, 0), supply[0].imm, StartOf(supply, 0), x);
  }

  // ---------- growing the pattern until it is unique ----------

  datatype SynthesisError =
    | BadBuild(build: BuildError)
    | BadText(text: PatternError)
    | ScanFailed
    | NotUnique(count: nat)
    | Empty

  /** How often a pattern occurs in the module, or `None` if the scan fails. */
  type Scanner = Pattern -> Option<nat>

  /** The text of `n` instructions parses to a pattern that the scanner finds `count` times. */
  ghost predicate Occurs(bytes: seq<byte>, supply: seq<Decoded>, scanner: Scanner, n: nat, count: nat) {
    && Built(bytes, supply, n).Some?
    && exists p :: ParsedAs(Built(bytes, supply, n).value.pattern, Ok(p)) && scanner(p) == Some(count)
  }

  /** A text parses to at most one pattern. */
  lemma OnePattern(text: string, p: Pattern)
    requires ParsedAs(text, Ok(p))
    ensures forall q :: ParsedAs(text, Ok(q)) ==> q == p
  {
    forall q | ParsedAs(text, Ok(q)) ensures q == p {
      AnchorUnique(q, p);
    }
  }

  /** One attempt: build, parse and count. */
  method Try(bytes: seq<byte>, supply: seq<Decoded>, scanner: Scanner, n: nat)
    returns (r: Result<Synthesis, SynthesisError>)
    ensures r.Ok? ==> Built(bytes, supply, n) == Some(r.value) && Occurs(bytes, supply, scanner, n, 1)
    ensures r.Err? && r.error.NotUnique? ==> !Occurs(bytes, supply, scanner, n, 1)
    ensures r.Err? ==> !r.error.Empty?
  {
    var syn := BuildPattern(bytes, supply, n);
    if syn.Err? {
      return Err(BadBuild(syn.error));
    }
    var p := Parse(syn.value.pattern);
    if p.Err? {
      return Err(BadText(p.error));
    }
    OnePattern(syn.value.pattern, p.value);
    var count := scanner(p.value);
    if count == None {
      return Err(ScanFailed);
    }
    return if count == Some(1) then Ok(syn.value) else Err(NotUnique(count.value));
  }

  /** The numbers of instructions whose pattern occurs exactly once. */
  ghost function UniqueAt(bytes: seq<byte>, supply: seq<Decoded>, scanner: Scanner): nat -> bool {
    (n: nat) => Occurs(bytes, supply, scanner, n, 1)
  }

  /** Attempt after attempt, up to the first pattern that is unique; `unique` names which ones are. */
  method GrowUntilUnique(
      bytes: seq<byte>, supply: seq<Decoded>, scanner: Scanner, first: nat, last: nat, ghost unique: nat -> bool)
    returns (r: Result<Synthesis, SynthesisError>, n: nat)
    requires forall k: nat {:trigger Occurs(bytes, supply, scanner, k, 1)} ::
               unique(k) == Occurs(bytes, supply, scanner, k, 1)
    ensures r.Ok? ==> first <= n <= last && Built(bytes, supply, n) == Some(r.value) && unique(n)
    ensures r.Ok? ==> forall k :: first <= k < n ==> !unique(k)
    ensures r.Err? && (r.error.NotUnique? || r.error.Empty?) ==> forall k :: first <= k <= last ==> !unique(k)
  {
    r, n := Err(Empty), first;
    while n <= last
      invariant first <= n && r.Err? && (r.error.NotUnique? || r.error.Empty?)
      invariant forall k :: first <= k < n ==> !unique(k)
    {
      r := Try(bytes, supply, scanner, n);
      if r.Ok? || !r.error.NotUnique? {
        return;
      }
      n := n + 1;
    }
  }

  /**
   * `synthesize_unique`: the result is built from the smallest number of instructions whose pattern occurs exactly
   * once, every smaller number having been tried and found to occur some other number of times.
   */
  method SynthesizeUnique(bytes: seq<byte>, supply: seq<Decoded>, scanner: Scanner, first: nat, last: nat)
    returns (r: Result<Synthesis, SynthesisError>, n: nat)
    ensures r.Ok? ==>
              && first <= n <= last && Built(bytes, supply, n) == Some(r.value)
              && UniqueAt(bytes, supply, scanner)(n)
              && forall k :: first <= k < n ==> !UniqueAt(bytes, supply, scanner)(k)
    ensures r.Err? && (r.error.NotUnique? || r.error.Empty?) ==>
              forall k :: first <= k <= last ==> !UniqueAt(bytes, supply, scanner)(k)
  {
    r, n := GrowUntilUnique(bytes, supply, scanner, first, last, UniqueAt(bytes, supply, scanner));
  }
}
