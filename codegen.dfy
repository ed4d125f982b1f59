/**
 * The x86-64 emitter: a fixed runtime shim, then for every graph a post-order
 * walk from the end block that appends AT&T assembly lines per node.  Output is
 * kept as a sequence of lines; `Text` joins them with line feeds.
 */
module CodeGen {
  import opened Ir

  datatype Error = UnsupportedNode(kind: Kind) | UnsupportedRegister
  datatype Result<T> = Ok(value: T) | Err(error: Error)

  /** One graph to emit, with the register map the allocator produced for it. */
  datatype Unit = Unit(graph: Graph, end: NodeId, registers: map<NodeId, nat>)

  /** The runtime shim: `main` calls `_main` and exits with its result. */
  const Header: seq<string> := [
    ".global main",
    ".global _main",
    ".text",
    "main:",
    "    call _main",
    "    movq %rax, %rdi",
    "    movq $0x3C, %rax",
    "    syscall",
    "_main:"
  ]

  /** The names of the three allocatable registers. */
  predicate IsPoolName(s: string)
  {
    s == "%rbx" || s == "%rcx" || s == "%rdx"
  }

  /** `getRegisterName`: only the indices 0, 1 and 2 have a name. */
  function RegisterName(reg: nat): (name: Option<string>)
    ensures name.Some? <==> reg < 3
    ensures name.Some? ==> IsPoolName(name.value)
  {
    match reg
    case 0 => Some("%rbx")
    case 1 => Some("%rcx")
    case 2 => Some("%rdx")
    case _ => None
  }

  /** Distinct physical registers are rendered as distinct names. */
  lemma {:induction false} RegisterNameInjective(a: nat, b: nat)
    requires RegisterName(a).Some? && RegisterName(b).Some?
    ensures RegisterName(a) == RegisterName(b) <==> a == b
  {
  }

  /** `getRegisterName(registers.get(n))`: a node without an entry fails like an unknown register. */
  function RegisterOf(regs: map<NodeId, nat>, n: NodeId): (name: Option<string>)
    ensures name.Some? <==> n in regs && regs[n] < 3
  {
    if n in regs then RegisterName(regs[n]) else None
  }

  function DigitChar(d: nat): (c: char)
    requires d < 10
    ensures '0' <= c <= '9' && c as int - '0' as int == d
  {
    ('0' as int + d) as char
  }

  /** The decimal digits of `n`, most significant first. */
  function Digits(n: nat): (s: string)
    ensures |s| >= 1 && forall i :: 0 <= i < |s| ==> '0' <= s[i] <= '9'
  {
    if n < 10 then [DigitChar(n)] else Digits(n / 10) + [DigitChar(n % 10)]
  }

  /** How `StringBuilder.append(int)` renders a value: a minus sign exactly for a negative value, then digits. */
  function Decimal(v: int): (s: string)
    ensures |s| >= 1 && (s[0] == '-' <==> v < 0)
    ensures forall i :: 0 < i < |s| ==> '0' <= s[i] <= '9'
  {
    if v < 0 then "-" + Digits(-v) else Digits(v)
  }

  /** Reads a string of decimal digits back. */
  function ParseDigits(s: string): nat
  {
    if s == [] then 0
    else
      var d := s[|s| - 1] as int - '0' as int;
      ParseDigits(s[..|s| - 1]) * 10 + (if 0 <= d < 10 then d else 0)
  }

  function ParseDecimal(s: string): int
  {
    if |s| > 0 && s[0] == '-' then -(ParseDigits(s[1..]) as int) else ParseDigits(s)
  }

  lemma {:induction false} DigitsRoundTrip(n: nat)
    ensures ParseDigits(Digits(n)) == n
  {
    if n >= 10 {
      DigitsRoundTrip(n / 10);
      var s := Digits(n);
      assert s[..|s| - 1] == Digits(n / 10);
    }
  }

  /** The constant written into a `movq $<value>` line can be read back from it. */
  lemma {:induction false} DecimalRoundTrip(v: int)
    ensures ParseDecimal(Decimal(v)) == v
  {
    var s := Decimal(v);
    if v < 0 {
      DigitsRoundTrip(-v);
      assert s[0] == '-' && s[1..] == Digits(-v);
    } else {
      DigitsRoundTrip(v);
      assert s == Digits(v) && s[0] != '-';
    }
  }

  /**
   * A line of a graph body: it is indented by four spaces and is an `addq`, a
   * `ret`, or a `movq` whose destination is an allocatable register or which
   * moves a register into %rax.  No line of the shim has this shape.
   */
  predicate IsBodyLine(l: string)
  {
    && |l| >= 7
    && l[..4] == "    "
    && (|| l[4] == 'a'
        || l[4] == 'r'
        || (l[4] == 'm' && |l| >= 10 && (IsPoolName(l[|l| - 4..]) || (l[9] == '%' && l[|l| - 4..] == "%rax"))))
  }

  lemma {:induction false} HeaderIsNotBody()
    ensures forall i :: 0 <= i < |Header| ==> !IsBodyLine(Header[i])
  {
    assert !IsBodyLine(Header[5]) by {
      assert Header[5][|Header[5]| - 4..] == "%rdi";
    }
    assert !IsBodyLine(Header[6]) by {
      assert Header[6][9] == '$';
      assert Header[6][|Header[6]| - 4..] == "%rax";
    }
  }

  /** The kinds the emitter has no case for. */
  predicate Unsupported(k: Kind)
  {
    k.Sub? || k.Mul? || k.Div? || k.Mod? || k.Phi?
  }

  /** The nodes whose registers the lines of `n` name. */
  function Operands(g: Graph, n: NodeId): (ops: seq<NodeId>)
    requires WellFormed(g) && n in g
    ensures forall i :: 0 <= i < |ops| ==> ops[i] in g
  {
    match g[n].kind
    case Add => [n, PredSkipProj(g, n, LEFT), PredSkipProj(g, n, RIGHT)]
    case ConstInt(_) => [n]
    case Return => [PredSkipProj(g, n, RESULT)]
    case _ => []
  }

  /**
   * The `switch` of `scan`: the lines a node contributes, or why it cannot be
   * emitted.  It fails exactly for the kinds without a case and for a node whose
   * lines would name a register that has no name.
   */
  function NodeLines(g: Graph, regs: map<NodeId, nat>, n: NodeId): (r: Result<seq<string>>)
    requires WellFormed(g) && n in g
    ensures r.Err? <==> Unsupported(g[n].kind) ||
                        exists i :: 0 <= i < |Operands(g, n)| && RegisterOf(regs, Operands(g, n)[i]).None?
    ensures r.Err? ==> r.error == if Unsupported(g[n].kind) then UnsupportedNode(g[n].kind) else UnsupportedRegister
  {
    match g[n].kind
    case Add =>
      var result := RegisterOf(regs, n);
      var left := RegisterOf(regs, PredSkipProj(g, n, LEFT));
      var right := RegisterOf(regs, PredSkipProj(g, n, RIGHT));
      if left.None? || right.None? || result.None? then
        assert RegisterOf(regs, Operands(g, n)[if result.None? then 0 else if left.None? then 1 else 2]).None?;
        Err(UnsupportedRegister)
      else
        Ok(["    movq " + left.value + ", %rax", "    addq " + right.value + ", %rax", "    movq %rax, " + result.value])
    case ConstInt(v) =>
      var reg := RegisterOf(regs, n);
      if reg.None? then
        assert RegisterOf(regs, Operands(g, n)[0]).None?;
        Err(UnsupportedRegister)
      else
        Ok(["    movq $" + Decimal(v) + ", " + reg.value])
    case Return =>
      var result := RegisterOf(regs, PredSkipProj(g, n, RESULT));
      if result.None? then
        assert RegisterOf(regs, Operands(g, n)[0]).None?;
        Err(UnsupportedRegister)
      else
        Ok(["    movq " + result.value + ", %rax", "    ret"])
    case Block => Ok([])
    case Proj => Ok([])
    case Start => Ok([])
    case _ => Err(UnsupportedNode(g[n].kind))
  }

  /** An operand of an emitted instruction: a register name or an immediate. */
  datatype Operand = Reg(name: string) | Imm(value: int)

  /** The instructions the emitter writes, with the destination register last as in AT&T syntax. */
  datatype Instr = Movq(src: Operand, dst: string) | Addq(src: Operand, dst: string) | Ret

  /** How a register name looks in a line: `%` and three letters, so it ends where the line ends. */
  predicate IsRegText(s: string)
  {
    |s| == 4 && s[0] == '%'
  }

  lemma {:induction false} PoolNameIsRegText(s: string)
    requires IsPoolName(s)
    ensures IsRegText(s) && s != "%rax"
  {
  }

  predicate WellFormedInstr(i: Instr)
  {
    match i
    case Movq(src, dst) => IsRegText(dst) && (src.Reg? ==> IsRegText(src.name))
    case Addq(src, dst) => IsRegText(dst) && (src.Reg? ==> IsRegText(src.name))
    case Ret => true
  }

  function OperandText(o: Operand): string
  {
    match o
    case Reg(name) => name
    case Imm(v) => "$" + Decimal(v)
  }

  /** One line of assembly text for an instruction. */
  function Render(i: Instr): string
  {
    match i
    case Movq(src, dst) => "    movq " + OperandText(src) + ", " + dst
    case Addq(src, dst) => "    addq " + OperandText(src) + ", " + dst
    case Ret => "    ret"
  }

  function RenderAll(instrs: seq<Instr>): (lines: seq<string>)
    ensures |lines| == |instrs|
  {
    if instrs == [] then [] else [Render(instrs[0])] + RenderAll(instrs[1..])
  }

  function ParseOperand(s: string): Operand
  {
    if |s| > 0 && s[0] == '$' then Imm(ParseDecimal(s[1..])) else Reg(s)
  }

  /**
   * Reads an instruction line back: `ret`, or a two-operand mnemonic whose
   * destination is the four characters after the final ", ".
   */
  function ParseLine(l: string): Option<Instr>
  {
    if l == "    ret" then Some(Ret)
    else if |l| >= 16 && l[|l| - 6..|l| - 4] == ", " && (l[..9] == "    movq " || l[..9] == "    addq ") then
      var src, dst := ParseOperand(l[9..|l| - 6]), l[|l| - 4..];
      Some(if l[..9] == "    movq " then Movq(src, dst) else Addq(src, dst))
    else None
  }

  function Decode(lines: seq<string>): Option<seq<Instr>>
  {
    if lines == [] then Some([])
    else
      match (ParseLine(lines[0]), Decode(lines[1..]))
      case (Some(i), Some(rest)) => Some([i] + rest)
      case _ => None
  }

  /** Every instruction line reads back as the mnemonic and operands it was written from. */
  lemma {:induction false} ParseRender(i: Instr)
    requires WellFormedInstr(i)
    ensures ParseLine(Render(i)) == Some(i)
  {
    match i
    case Ret =>
    case Movq(src, dst) => ParseTwoOperands("    movq ", src, dst);
    case Addq(src, dst) => ParseTwoOperands("    addq ", src, dst);
  }

  lemma {:induction false} ParseTwoOperands(mnemonic: string, src: Operand, dst: string)
    requires mnemonic == "    movq " || mnemonic == "    addq "
    requires IsRegText(dst) && (src.Reg? ==> IsRegText(src.name))
    ensures var l := mnemonic + OperandText(src) + ", " + dst;
      && |l| >= 16 && l != "    ret"
      && l[..9] == mnemonic && l[|l| - 6..|l| - 4] == ", " && l[|l| - 4..] == dst
      && ParseOperand(l[9..|l| - 6]) == src
  {
    var t := OperandText(src);
    var l := mnemonic + t + ", " + dst;
    assert |l| == 9 + |t| + 6;
    assert l[..9] == mnemonic;
    assert l[9..|l| - 6] == t;
    assert l[|l| - 6..|l| - 4] == ", ";
    assert l[|l| - 4..] == dst;
    match src
    case Reg(name) =>
      assert t[0] == '%';
    case Imm(v) =>
      assert t[1..] == Decimal(v);
      DecimalRoundTrip(v);
  }

  /** A sequence of rendered instructions decodes to that sequence. */
  lemma {:induction false} DecodeRenderAll(instrs: seq<Instr>)
    requires forall k :: 0 <= k < |instrs| ==> WellFormedInstr(instrs[k])
    ensures Decode(RenderAll(instrs)) == Some(instrs)
    decreases |instrs|
  {
    if instrs != [] {
      ParseRender(instrs[0]);
      DecodeRenderAll(instrs[1..]);
      var lines := RenderAll(instrs);
      assert lines[0] == Render(instrs[0]);
      assert lines[1..] == RenderAll(instrs[1..]);
      assert [instrs[0]] + instrs[1..] == instrs;
    }
  }

  /** A value as the 64-bit two's complement register holds it. */
  function Wrap64(x: int): int
    decreases if x < -0x8000_0000_0000_0000 then -0x8000_0000_0000_0000 - x
              else if x >= 0x8000_0000_0000_0000 then x - 0x7FFF_FFFF_FFFF_FFFF else 0
  {
    if x < -0x8000_0000_0000_0000 then Wrap64(x + 0x1_0000_0000_0000_0000)
    else if x >= 0x8000_0000_0000_0000 then Wrap64(x - 0x1_0000_0000_0000_0000)
    else x
  }

  /** `Wrap64` picks the representative of `x` modulo 2^64 in the signed 64-bit range; within that range it is the identity. */
  lemma {:induction false} Wrap64Range(x: int)
    ensures -0x8000_0000_0000_0000 <= Wrap64(x) < 0x8000_0000_0000_0000
    ensures (x - Wrap64(x)) % 0x1_0000_0000_0000_0000 == 0
    ensures -0x8000_0000_0000_0000 <= x < 0x8000_0000_0000_0000 ==> Wrap64(x) == x
    decreases if x < -0x8000_0000_0000_0000 then -0x8000_0000_0000_0000 - x
              else if x >= 0x8000_0000_0000_0000 then x - 0x7FFF_FFFF_FFFF_FFFF else 0
  {
    if x < -0x8000_0000_0000_0000 {
      Wrap64Range(x + 0x1_0000_0000_0000_0000);
    } else if x >= 0x8000_0000_0000_0000 {
      Wrap64Range(x - 0x1_0000_0000_0000_0000);
    }
  }

  /** Register contents; a register never written reads as zero. */
  type Machine = map<string, int>

  function Read(m: Machine, name: string): int
  {
    if name in m then m[name] else 0
  }

  function Value(m: Machine, o: Operand): int
  {
    match o
    case Reg(name) => Read(m, name)
    case Imm(v) => v
  }

  /** What one instruction does to the registers; `ret` leaves them as they are. */
  function Step(m: Machine, i: Instr): Machine
  {
    match i
    case Movq(src, dst) => m[dst := Value(m, src)]
    case Addq(src, dst) => m[dst := Wrap64(Read(m, dst) + Value(m, src))]
    case Ret => m
  }

  function Run(m: Machine, instrs: seq<Instr>): Machine
    decreases |instrs|
  {
    if instrs == [] then m else Run(Step(m, instrs[0]), instrs[1..])
  }

  /**
   * Running `code` from `m` leaves `v` in `dst` and changes no register other
   * than `dst` and those in `clobbered`.
   */
  ghost predicate Computes(code: seq<Instr>, m: Machine, dst: string, v: int, clobbered: set<string>)
  {
    && Read(Run(m, code), dst) == v
    && forall r :: r != dst && r !in clobbered ==> Read(Run(m, code), r) == Read(m, r)
  }

  /**
   * What the lines of a constant mean once decoded: its value is loaded into
   * its register and no other register changes.
   */
  lemma {:induction false} ConstNodeMeaning(g: Graph, regs: map<NodeId, nat>, n: NodeId, m: Machine)
    requires WellFormed(g) && n in g && g[n].kind.ConstInt? && NodeLines(g, regs, n).Ok?
    ensures var d, dst := Decode(NodeLines(g, regs, n).value), RegisterOf(regs, n);
      && d.Some? && dst.Some? && |d.value| == 1
      && Computes(d.value, m, dst.value, g[n].kind.value, {})
  {
    PoolNameIsRegText(RegisterOf(regs, n).value);
    ConstLines(g[n].kind.value, RegisterOf(regs, n).value, m);
  }

  /**
   * What the lines of an addition mean once decoded: the 64-bit sum of its
   * operands' registers ends up in its own register, and %rax is the only
   * other register that changes.
   */
  lemma {:induction false} AddNodeMeaning(g: Graph, regs: map<NodeId, nat>, n: NodeId, m: Machine)
    requires WellFormed(g) && n in g && g[n].kind.Add? && NodeLines(g, regs, n).Ok?
    ensures var d := Decode(NodeLines(g, regs, n).value);
      var dst, left, right :=
        RegisterOf(regs, n), RegisterOf(regs, PredSkipProj(g, n, LEFT)), RegisterOf(regs, PredSkipProj(g, n, RIGHT));
      && d.Some? && dst.Some? && left.Some? && right.Some? && |d.value| == 3
      && Computes(d.value, m, dst.value, Wrap64(Read(m, left.value) + Read(m, right.value)), {"%rax"})
  {
    var left := RegisterOf(regs, PredSkipProj(g, n, LEFT)).value;
    var right := RegisterOf(regs, PredSkipProj(g, n, RIGHT)).value;
    var dst := RegisterOf(regs, n).value;
    PoolNameIsRegText(left);
    PoolNameIsRegText(right);
    PoolNameIsRegText(dst);
    AddLines(left, right, dst, m);
  }

  /**
   * What the lines of a return mean once decoded: its result is moved into
   * %rax, nothing else changes, and the last instruction is `ret`.
   */
  lemma {:induction false} ReturnNodeMeaning(g: Graph, regs: map<NodeId, nat>, n: NodeId, m: Machine)
    requires WellFormed(g) && n in g && g[n].kind.Return? && NodeLines(g, regs, n).Ok?
    ensures var d, res := Decode(NodeLines(g, regs, n).value), RegisterOf(regs, PredSkipProj(g, n, RESULT));
      && d.Some? && res.Some? && |d.value| == 2 && d.value[1] == Ret
      && Computes(d.value, m, "%rax", Read(m, res.value), {})
  {
    PoolNameIsRegText(RegisterOf(regs, PredSkipProj(g, n, RESULT)).value);
    ReturnLines(RegisterOf(regs, PredSkipProj(g, n, RESULT)).value, m);
  }

  lemma {:induction false} ConstLines(v: int, dst: string, m: Machine)
    requires IsRegText(dst)
    ensures var d := Decode(["    movq $" + Decimal(v) + ", " + dst]);
      d.Some? && |d.value| == 1 && Computes(d.value, m, dst, v, {})
  {
    var code := [Movq(Imm(v), dst)];
    assert code[1..] == [];
    assert "    movq $" + Decimal(v) + ", " + dst == Render(code[0]);
    assert ["    movq $" + Decimal(v) + ", " + dst] == RenderAll(code);
    DecodeRenderAll(code);
    assert Run(m, code) == m[dst := v];
  }

  lemma {:induction false} AddLines(left: string, right: string, dst: string, m: Machine)
    requires IsRegText(left) && IsRegText(right) && IsRegText(dst) && right != "%rax"
    ensures var d := Decode(["    movq " + left + ", %rax", "    addq " + right + ", %rax", "    movq %rax, " + dst]);
      d.Some? && |d.value| == 3 && Computes(d.value, m, dst, Wrap64(Read(m, left) + Read(m, right)), {"%rax"})
  {
    var code := [Movq(Reg(left), "%rax"), Addq(Reg(right), "%rax"), Movq(Reg("%rax"), dst)];
    AddCode(left, right, dst);
    var m1 := m["%rax" := Read(m, left)];
    var m2 := m1["%rax" := Wrap64(Read(m, left) + Read(m, right))];
    assert Step(m, code[0]) == m1;
    assert Step(m1, code[1]) == m2;
    assert code[1..][1..] == [code[2]];
    RunOne(m2, code[2]);
    assert Run(m, code) == Run(m1, code[1..]);
    assert Run(m1, code[1..]) == Run(m2, code[1..][1..]);
  }

  lemma {:induction false} AddCode(left: string, right: string, dst: string)
    requires IsRegText(left) && IsRegText(right) && IsRegText(dst) && right != "%rax"
    ensures Decode(["    movq " + left + ", %rax", "    addq " + right + ", %rax", "    movq %rax, " + dst])
         == Some([Movq(Reg(left), "%rax"), Addq(Reg(right), "%rax"), Movq(Reg("%rax"), dst)])
  {
    var code := [Movq(Reg(left), "%rax"), Addq(Reg(right), "%rax"), Movq(Reg("%rax"), dst)];
    assert "    movq " + left + ", %rax" == Render(code[0]);
    assert "    addq " + right + ", %rax" == Render(code[1]);
    assert "    movq %rax, " + dst == Render(code[2]);
    assert code[1..][1..][1..] == [];
    assert RenderAll(code[2..]) == [Render(code[2])];
    assert RenderAll(code[1..]) == [Render(code[1]), Render(code[2])];
    assert ["    movq " + left + ", %rax", "    addq " + right + ", %rax", "    movq %rax, " + dst] == RenderAll(code);
    DecodeRenderAll(code);
  }

  lemma {:induction false} RunOne(m: Machine, i: Instr)
    ensures Run(m, [i]) == Step(m, i)
  {
    assert [i][1..] == [];
  }

  lemma {:induction false} ReturnLines(res: string, m: Machine)
    requires IsPoolName(res)
    ensures var d := Decode(["    movq " + res + ", %rax", "    ret"]);
      d.Some? && |d.value| == 2 && d.value[1] == Ret && Computes(d.value, m, "%rax", Read(m, res), {})
  {
    var code := [Movq(Reg(res), "%rax"), Ret];
    assert code[1..][1..] == [];
    assert "    movq " + res + ", %rax" == Render(code[0]);
    assert RenderAll(code[1..]) == ["    ret"];
    assert ["    movq " + res + ", %rax", "    ret"] == RenderAll(code);
    DecodeRenderAll(code);
    assert code[1..] == [Ret];
    RunOne(m["%rax" := Read(m, res)], Ret);
    assert Run(m, code) == Run(m["%rax" := Read(m, res)], code[1..]);
  }

  /** Every line produced for a node is a body line. */
  lemma {:induction false} NodeLinesAreBody(g: Graph, regs: map<NodeId, nat>, n: NodeId)
    requires WellFormed(g) && n in g && NodeLines(g, regs, n).Ok?
    ensures var lines := NodeLines(g, regs, n).value; forall i :: 0 <= i < |lines| ==> IsBodyLine(lines[i])
  {
    match g[n].kind
    case Add =>
      MovIntoRaxIsBody(RegisterOf(regs, PredSkipProj(g, n, LEFT)).value);
      EndsInPoolIsBody("    movq %rax, ", RegisterOf(regs, n).value);
    case ConstInt(v) =>
      EndsInPoolIsBody("    movq $" + Decimal(v) + ", ", RegisterOf(regs, n).value);
    case Return =>
      MovIntoRaxIsBody(RegisterOf(regs, PredSkipProj(g, n, RESULT)).value);
    case _ =>
  }

  lemma {:induction false} EndsInPoolIsBody(prefix: string, name: string)
    requires |prefix| >= 6 && prefix[..5] == "    m" && IsPoolName(name)
    ensures IsBodyLine(prefix + name)
  {
    var l := prefix + name;
    assert l[|l| - 4..] == name;
    assert l[..4] == prefix[..4];
  }

  lemma {:induction false} MovIntoRaxIsBody(name: string)
    requires IsPoolName(name)
    ensures IsBodyLine("    movq " + name + ", %rax")
  {
    var l := "    movq " + name + ", %rax";
    assert l[9] == name[0];
    assert l[|l| - 4..] == "%rax";
  }

  /** The lines `scan` appends for each node of the graph: none for a node that fails. */
  ghost function LineTable(g: Graph, regs: map<NodeId, nat>): (table: map<NodeId, seq<string>>)
    requires WellFormed(g)
    ensures table.Keys == g.Keys
  {
    map n | n in g :: if NodeLines(g, regs, n).Ok? then NodeLines(g, regs, n).value else []
  }

  /** The error of every node for which `NodeLines` fails. */
  ghost function ErrorTable(g: Graph, regs: map<NodeId, nat>): map<NodeId, Error>
    requires WellFormed(g)
  {
    map n | n in g && NodeLines(g, regs, n).Err? :: NodeLines(g, regs, n).error
  }

  /** `errs` holds exactly the nodes `NodeLines` fails on, with their errors. */
  ghost predicate FailsOn(g: Graph, regs: map<NodeId, nat>, errs: map<NodeId, Error>)
    requires WellFormed(g)
  {
    forall n {:trigger NodeLines(g, regs, n)} :: n in g ==>
      && (n in errs <==> NodeLines(g, regs, n).Err?)
      && (n in errs ==> errs[n] == NodeLines(g, regs, n).error)
  }

  /** `table` holds the lines of every node, as `LineTable` does. */
  ghost predicate Tabulates(g: Graph, regs: map<NodeId, nat>, table: map<NodeId, seq<string>>)
    requires WellFormed(g)
  {
    && table.Keys == g.Keys
    && forall n {:trigger NodeLines(g, regs, n)} :: n in g ==>
         table[n] == if NodeLines(g, regs, n).Ok? then NodeLines(g, regs, n).value else []
  }

  lemma {:induction false} TabulatesGraph(g: Graph, regs: map<NodeId, nat>)
    requires WellFormed(g)
    ensures FailsOn(g, regs, ErrorTable(g, regs)) && Tabulates(g, regs, LineTable(g, regs))
  {
  }

  /** The lines of the nodes of `t`, in order. */
  ghost function Emitted(table: map<NodeId, seq<string>>, t: seq<NodeId>): seq<string>
    requires forall j :: 0 <= j < |t| ==> t[j] in table
  {
    if t == [] then [] else Emitted(table, t[..|t| - 1]) + table[t[|t| - 1]]
  }

  lemma {:induction false} EmittedAppend(table: map<NodeId, seq<string>>, s: seq<NodeId>, t: seq<NodeId>)
    requires (forall j :: 0 <= j < |s| ==> s[j] in table) && forall j :: 0 <= j < |t| ==> t[j] in table
    ensures Emitted(table, s + t) == Emitted(table, s) + Emitted(table, t)
    decreases |t|
  {
    if t == [] {
      assert s + t == s;
    } else {
      var t' := t[..|t| - 1];
      EmittedAppend(table, s, t');
      assert (s + t)[..|s + t| - 1] == s + t';
    }
  }

  /** Output that already holds the lines of `s` and then receives those of `t` holds the lines of `s + t`. */
  lemma {:induction false} OutputGrows(table: map<NodeId, seq<string>>, out: seq<string>, s: seq<NodeId>, mid: seq<string>,
                    t: seq<NodeId>, after: seq<string>)
    requires (forall j :: 0 <= j < |s| ==> s[j] in table) && forall j :: 0 <= j < |t| ==> t[j] in table
    requires mid == out + Emitted(table, s) && after == mid + Emitted(table, t)
    ensures after == out + Emitted(table, s + t)
  {
    var es, et := Emitted(table, s), Emitted(table, t);
    EmittedAppend(table, s, t);
    assert after == (out + es) + et;
    assert (out + es) + et == out + (es + et);
  }

  /** Every line of `lines` is a body line. */
  ghost predicate AllBody(lines: seq<string>)
  {
    forall i :: 0 <= i < |lines| ==> IsBodyLine(lines[i])
  }

  lemma {:induction false} AllBodyAppend(a: seq<string>, b: seq<string>)
    requires AllBody(a) && AllBody(b)
    ensures AllBody(a + b)
  {
    forall i | 0 <= i < |a + b| ensures IsBodyLine((a + b)[i]) {
      if i < |a| {
        assert (a + b)[i] == a[i];
      } else {
        assert (a + b)[i] == b[i - |a|];
      }
    }
  }

  /** Every line emitted for `t` is a body line. */
  lemma {:induction false} EmittedAreBody(g: Graph, regs: map<NodeId, nat>, table: map<NodeId, seq<string>>, t: seq<NodeId>)
    requires WellFormed(g) && Tabulates(g, regs, table) && forall j :: 0 <= j < |t| ==> t[j] in g
    ensures AllBody(Emitted(table, t))
  {
    if t != [] {
      var last := t[|t| - 1];
      EmittedAreBody(g, regs, table, t[..|t| - 1]);
      var lines := table[last];
      if NodeLines(g, regs, last).Ok? {
        NodeLinesAreBody(g, regs, last);
        assert lines == NodeLines(g, regs, last).value;
      } else {
        assert lines == [];
      }
      AllBodyAppend(Emitted(table, t[..|t| - 1]), lines);
    }
  }

  /**
   * What a call of `scan` does, as a value: the visited set afterwards, the
   * nodes whose lines it produced in order, and whether the last of them failed.
   */
  datatype Walk = Walk(visited: set<NodeId>, trace: seq<NodeId>, failed: bool)

  /** The nodes of a walk whose lines are complete: all of them, or all but the one that failed. */
  function Completed(w: Walk): seq<NodeId>
  {
    if w.failed && w.trace != [] then w.trace[..|w.trace| - 1] else w.trace
  }

  /** The walk `w` preceded by the nodes `t`. */
  function After(t: seq<NodeId>, w: Walk): Walk
  {
    Walk(w.visited, t + w.trace, w.failed)
  }

  /**
   * The trace lies in the graph; no completed node is one of the nodes `bad`
   * that fail, and the walk failed exactly on one of them.
   */
  ghost predicate Emittable(g: Graph, bad: set<NodeId>, w: Walk)
  {
    && (forall j :: 0 <= j < |w.trace| ==> w.trace[j] in g)
    && (forall j :: 0 <= j < |Completed(w)| ==> Completed(w)[j] !in bad)
    && (w.failed ==> w.trace != [] && w.trace[|w.trace| - 1] in bad)
  }

  lemma {:induction false} CompletedAfter(g: Graph, bad: set<NodeId>, t: seq<NodeId>, w: Walk)
    requires forall j :: 0 <= j < |t| ==> t[j] in g && t[j] !in bad
    requires Emittable(g, bad, w)
    ensures Completed(After(t, w)) == t + Completed(w)
    ensures Emittable(g, bad, After(t, w))
  {
    if w.failed {
      assert (t + w.trace)[..|t + w.trace| - 1] == t + w.trace[..|w.trace| - 1];
    }
  }

  /**
   * `scan(node)` with `visited` as it is on entry, where the nodes `bad` are
   * those that cannot be emitted: the walks of the inputs not yet visited, then
   * the node itself.
   */
  ghost function WalkNode(g: Graph, bad: set<NodeId>, node: NodeId, visited: set<NodeId>): (w: Walk)
    requires WellFormed(g) && node in g && visited <= g.Keys
    ensures visited <= w.visited <= g.Keys
    ensures w.trace != [] && Emittable(g, bad, w)
    ensures !w.failed ==> w.trace[|w.trace| - 1] == node
    decreases g.Keys - visited, 1
  {
    var inputs := WalkPreds(g, bad, node, 0, visited);
    if inputs.failed then inputs
    else
      assert Completed(inputs) == inputs.trace;
      assert (inputs.trace + [node])[..|inputs.trace|] == inputs.trace;
      Walk(inputs.visited, inputs.trace + [node], node in bad)
  }

  /**
   * The loop of `scan(node)` from the `i`-th input on: an input is walked when
   * adding it to `visited` succeeds; the first walk that fails ends the loop.
   */
  ghost function WalkPreds(g: Graph, bad: set<NodeId>, node: NodeId, i: nat, visited: set<NodeId>): (w: Walk)
    requires WellFormed(g) && node in g && i <= |g[node].preds| && visited <= g.Keys
    ensures visited <= w.visited <= g.Keys
    ensures Emittable(g, bad, w)
    decreases g.Keys - visited, 0, |g[node].preds| - i
  {
    if i == |g[node].preds| then Walk(visited, [], false)
    else
      var p := g[node].preds[i];
      if p in visited then WalkPreds(g, bad, node, i + 1, visited)
      else
        var first := WalkNode(g, bad, p, visited + {p});
        if first.failed then first
        else
          var rest := WalkPreds(g, bad, node, i + 1, first.visited);
          assert Completed(first) == first.trace;
          CompletedAfter(g, bad, first.trace, rest);
          After(first.trace, rest)
  }

  /**
   * `scan`: first every predecessor not yet visited is marked and walked, then
   * the node's own lines are appended.  It does what `WalkNode` describes: the
   * visited set and the output afterwards are the walk's, and it fails exactly
   * when the walk does, with the error of the node that failed.  `errs` and
   * `table` stand for the errors of the nodes that fail and for the lines of
   * each node.
   */
  method Scan(g: Graph, regs: map<NodeId, nat>, ghost errs: map<NodeId, Error>, ghost table: map<NodeId, seq<string>>,
              node: NodeId, visited: set<NodeId>, out: seq<string>)
    returns (err: Option<Error>, visited': set<NodeId>, out': seq<string>)
    requires WellFormed(g) && FailsOn(g, regs, errs) && Tabulates(g, regs, table)
    requires node in g && visited <= g.Keys
    ensures visited' == WalkNode(g, errs.Keys, node, visited).visited
    ensures err.None? <==> !WalkNode(g, errs.Keys, node, visited).failed
    ensures err.Some? ==> var t := WalkNode(g, errs.Keys, node, visited).trace;
                          err.value == errs[t[|t| - 1]]
    ensures out' == out + Emitted(table, Completed(WalkNode(g, errs.Keys, node, visited)))
    decreases g.Keys - visited, 2
  {
    err, visited', out' := ScanInputs(g, regs, errs, table, node, visited, out);
    if err.Some? {
      return;
    }
    ghost var mid := out';
    var lines := NodeLines(g, regs, node);
    ScanEnd(g, regs, errs, table, node, visited, out, mid);
    if lines.Err? {
      return Some(lines.error), visited', out';
    }
    out' := out' + lines.value;
  }

  /** When the inputs were walked without failure, the node's own lines come last. */
  lemma {:induction false} ScanEnd(g: Graph, regs: map<NodeId, nat>, errs: map<NodeId, Error>,
                                   table: map<NodeId, seq<string>>, node: NodeId, visited: set<NodeId>,
                                   out: seq<string>, mid: seq<string>)
    requires WellFormed(g) && FailsOn(g, regs, errs) && Tabulates(g, regs, table)
    requires node in g && visited <= g.Keys
    requires var inputs := WalkPreds(g, errs.Keys, node, 0, visited);
      !inputs.failed && mid == out + Emitted(table, Completed(inputs))
    ensures var w := WalkNode(g, errs.Keys, node, visited);
      var lines := NodeLines(g, regs, node);
      && w.visited == WalkPreds(g, errs.Keys, node, 0, visited).visited
      && (w.failed <==> lines.Err?)
      && (lines.Err? ==> errs[w.trace[|w.trace| - 1]] == lines.error && mid == out + Emitted(table, Completed(w)))
      && (lines.Ok? ==> mid + lines.value == out + Emitted(table, Completed(w)))
  {
    var inputs := WalkPreds(g, errs.Keys, node, 0, visited);
    var done := inputs.trace;
    var w := WalkNode(g, errs.Keys, node, visited);
    assert w.trace == done + [node];
    assert Completed(inputs) == done;
    if NodeLines(g, regs, node).Err? {
      assert node in errs;
      assert Completed(w) == done;
    } else {
      assert node !in errs && Completed(w) == done + [node];
      assert (done + [node])[..|done|] == done;
      assert Emitted(table, Completed(w)) == Emitted(table, done) + table[node];
    }
  }

  /** The loop of `scan`: every input not yet visited is marked and walked, in order, until a walk fails. */
  method ScanInputs(g: Graph, regs: map<NodeId, nat>, ghost errs: map<NodeId, Error>, ghost table: map<NodeId, seq<string>>,
                    node: NodeId, visited: set<NodeId>, out: seq<string>)
    returns (err: Option<Error>, visited': set<NodeId>, out': seq<string>)
    requires WellFormed(g) && FailsOn(g, regs, errs) && Tabulates(g, regs, table)
    requires node in g && visited <= g.Keys
    ensures visited' == WalkPreds(g, errs.Keys, node, 0, visited).visited
    ensures err.None? <==> !WalkPreds(g, errs.Keys, node, 0, visited).failed
    ensures err.Some? ==> var t := WalkPreds(g, errs.Keys, node, 0, visited).trace;
                          t != [] && err.value == errs[t[|t| - 1]]
    ensures out' == out + Emitted(table, Completed(WalkPreds(g, errs.Keys, node, 0, visited)))
    decreases g.Keys - visited, 1
  {
    ghost var whole := WalkPreds(g, errs.Keys, node, 0, visited);
    ghost var done: seq<NodeId> := [];
    err, visited', out' := None, visited, out;
    for i := 0 to |g[node].preds|
      invariant err.None? && visited <= visited' <= g.Keys
      invariant forall j :: 0 <= j < |done| ==> done[j] in g && done[j] !in errs
      invariant out' == out + Emitted(table, done)
      invariant whole == After(done, WalkPreds(g, errs.Keys, node, i, visited'))
    {
      err, visited', out', done := ScanInput(g, regs, errs, table, node, i, visited, visited', out, out', done, whole);
      if err.Some? {
        return;
      }
    }
    assert done + [] == done;
  }

  /**
   * One turn of the loop of `scan`: the `i`-th input is walked when it was not
   * visited yet.  Either the loop state moves on to the next input, or the walk
   * failed and the loop's outcome is final.
   */
  method ScanInput(g: Graph, regs: map<NodeId, nat>, ghost errs: map<NodeId, Error>, ghost table: map<NodeId, seq<string>>,
                   node: NodeId, i: nat, ghost visited0: set<NodeId>, visited: set<NodeId>, ghost out0: seq<string>,
                   out: seq<string>, ghost done: seq<NodeId>, ghost whole: Walk)
    returns (err: Option<Error>, visited': set<NodeId>, out': seq<string>, ghost done': seq<NodeId>)
    requires WellFormed(g) && FailsOn(g, regs, errs) && Tabulates(g, regs, table)
    requires node in g && i < |g[node].preds| && visited0 <= visited <= g.Keys
    requires forall j :: 0 <= j < |done| ==> done[j] in g && done[j] !in errs
    requires out == out0 + Emitted(table, done)
    requires whole == After(done, WalkPreds(g, errs.Keys, node, i, visited))
    ensures visited0 <= visited' <= g.Keys
    ensures err.None? ==> && (forall j :: 0 <= j < |done'| ==> done'[j] in g && done'[j] !in errs)
                          && out' == out0 + Emitted(table, done')
                          && whole == After(done', WalkPreds(g, errs.Keys, node, i + 1, visited'))
    ensures err.Some? ==> && visited' == whole.visited && whole.failed
                          && whole.trace != [] && err.value == errs[whole.trace[|whole.trace| - 1]]
                          && out' == out0 + Emitted(table, Completed(whole))
    decreases g.Keys - visited0, 0
  {
    var p := g[node].preds[i];
    WalkPredsStep(g, errs.Keys, node, i, visited, done, whole);
    err, visited', out', done' := None, visited, out, done;
    if p !in visited {
      ghost var first := WalkNode(g, errs.Keys, p, visited + {p});
      err, visited', out' := Scan(g, regs, errs, table, p, visited + {p}, out);
      OutputGrows(table, out0, done, out, Completed(first), out');
      if err.Some? {
        CompletedAfter(g, errs.Keys, done, first);
      } else {
        done' := done + first.trace;
      }
    }
  }

  /** One turn of the loop of `scan`, in terms of the walk that remains. */
  lemma {:induction false} WalkPredsStep(g: Graph, bad: set<NodeId>, node: NodeId, i: nat, visited: set<NodeId>, done: seq<NodeId>,
                      whole: Walk)
    requires WellFormed(g) && node in g && i < |g[node].preds| && visited <= g.Keys
    requires forall j :: 0 <= j < |done| ==> done[j] in g && done[j] !in bad
    requires whole == After(done, WalkPreds(g, bad, node, i, visited))
    ensures var p := g[node].preds[i];
      p in visited ==> whole == After(done, WalkPreds(g, bad, node, i + 1, visited))
    ensures var p := g[node].preds[i];
      var first := WalkNode(g, bad, p, visited + {p});
      && (p !in visited && first.failed ==> whole == After(done, first))
      && (p !in visited && !first.failed ==>
            && (forall j :: 0 <= j < |first.trace| ==> first.trace[j] in g && first.trace[j] !in bad)
            && whole == After(done + first.trace, WalkPreds(g, bad, node, i + 1, first.visited)))
  {
    var p := g[node].preds[i];
    if p !in visited {
      var first := WalkNode(g, bad, p, visited + {p});
      if !first.failed {
        var rest := WalkPreds(g, bad, node, i + 1, first.visited);
        assert Completed(first) == first.trace;
        assert done + (first.trace + rest.trace) == (done + first.trace) + rest.trace;
      }
    }
  }

  /**
   * A walk produces no node twice apart from `node` itself, and nothing that was
   * visited before it began except `node`; it marks exactly what it produced.
   */
  lemma {:induction false} WalkNodeFresh(g: Graph, bad: set<NodeId>, node: NodeId, visited: set<NodeId>)
    requires WellFormed(g) && node in g && visited <= g.Keys
    ensures var t := WalkNode(g, bad, node, visited).trace;
      && NoDup(t[..|t| - 1]) && Elems(t[..|t| - 1]) !! visited
      && (t[|t| - 1] == node || t[|t| - 1] !in visited)
      && (t[|t| - 1] != node || node in visited ==> NoDup(t))
    ensures var w := WalkNode(g, bad, node, visited);
      !w.failed ==> w.visited == visited + Elems(w.trace[..|w.trace| - 1])
    decreases g.Keys - visited, 1
  {
    var w := WalkNode(g, bad, node, visited);
    var inputs := WalkPreds(g, bad, node, 0, visited);
    WalkPredsFresh(g, bad, node, 0, visited);
    if !inputs.failed {
      assert w.trace[..|w.trace| - 1] == inputs.trace;
      ElemsSnoc(inputs.trace, node);
    }
  }

  lemma {:induction false} WalkPredsFresh(g: Graph, bad: set<NodeId>, node: NodeId, i: nat, visited: set<NodeId>)
    requires WellFormed(g) && node in g && i <= |g[node].preds| && visited <= g.Keys
    ensures var w := WalkPreds(g, bad, node, i, visited);
      && NoDup(w.trace) && Elems(w.trace) !! visited
      && (!w.failed ==> w.visited == visited + Elems(w.trace))
    decreases g.Keys - visited, 0, |g[node].preds| - i
  {
    if i < |g[node].preds| {
      var p := g[node].preds[i];
      if p in visited {
        WalkPredsFresh(g, bad, node, i + 1, visited);
      } else {
        var first := WalkNode(g, bad, p, visited + {p});
        WalkInputFresh(g, bad, p, visited);
        if !first.failed {
          var rest := WalkPreds(g, bad, node, i + 1, first.visited);
          WalkPredsFresh(g, bad, node, i + 1, first.visited);
          ElemsAppend(first.trace, rest.trace);
        }
      }
    }
  }

  /** The walk of an input not visited before marks the input and produces nothing twice. */
  lemma {:induction false} WalkInputFresh(g: Graph, bad: set<NodeId>, p: NodeId, visited: set<NodeId>)
    requires WellFormed(g) && p in g && visited <= g.Keys && p !in visited
    ensures var w := WalkNode(g, bad, p, visited + {p});
      && NoDup(w.trace) && Elems(w.trace) !! visited
      && (!w.failed ==> w.visited == visited + Elems(w.trace))
    decreases g.Keys - visited, 0, 0
  {
    var first := WalkNode(g, bad, p, visited + {p});
    WalkNodeFresh(g, bad, p, visited + {p});
    var inner := first.trace[..|first.trace| - 1];
    assert first.trace == inner + [first.trace[|first.trace| - 1]];
    ElemsSnoc(inner, first.trace[|first.trace| - 1]);
  }

  /** Everything a walk from a node of a predecessor-closed set produces stays in that set. */
  lemma {:induction false} WalkNodeStaysIn(g: Graph, bad: set<NodeId>, node: NodeId, visited: set<NodeId>, c: set<NodeId>)
    requires WellFormed(g) && node in g && visited <= g.Keys
    requires Closed(g, c) && node in c
    ensures Elems(WalkNode(g, bad, node, visited).trace) <= c
    decreases g.Keys - visited, 1
  {
    var inputs := WalkPreds(g, bad, node, 0, visited);
    WalkPredsStaysIn(g, bad, node, 0, visited, c);
    ElemsSnoc(inputs.trace, node);
  }

  lemma {:induction false} WalkPredsStaysIn(g: Graph, bad: set<NodeId>, node: NodeId, i: nat, visited: set<NodeId>,
                                             c: set<NodeId>)
    requires WellFormed(g) && node in g && i <= |g[node].preds| && visited <= g.Keys
    requires Closed(g, c) && node in c
    ensures Elems(WalkPreds(g, bad, node, i, visited).trace) <= c
    decreases g.Keys - visited, 0, |g[node].preds| - i
  {
    if i < |g[node].preds| {
      var p := g[node].preds[i];
      assert PredsIn(g, node, c);
      if p in visited {
        WalkPredsStaysIn(g, bad, node, i + 1, visited, c);
      } else {
        var first := WalkNode(g, bad, p, visited + {p});
        WalkNodeStaysIn(g, bad, p, visited + {p}, c);
        if !first.failed {
          var rest := WalkPreds(g, bad, node, i + 1, first.visited);
          WalkPredsStaysIn(g, bad, node, i + 1, first.visited, c);
          ElemsAppend(first.trace, rest.trace);
        }
      }
    }
  }

  /**
   * A walk that succeeds leaves every input of the node, and every input of a
   * node it marked, visited.
   */
  lemma {:induction false} WalkNodeCloses(g: Graph, bad: set<NodeId>, node: NodeId, visited: set<NodeId>)
    requires WellFormed(g) && node in g && visited <= g.Keys
    ensures var w := WalkNode(g, bad, node, visited);
      !w.failed ==> PredsIn(g, node, w.visited) && forall n :: n in w.visited - visited ==> PredsIn(g, n, w.visited)
    decreases g.Keys - visited, 1
  {
    WalkPredsCloses(g, bad, node, 0, visited);
  }

  lemma {:induction false} WalkPredsCloses(g: Graph, bad: set<NodeId>, node: NodeId, i: nat, visited: set<NodeId>)
    requires WellFormed(g) && node in g && i <= |g[node].preds| && visited <= g.Keys
    ensures var w := WalkPreds(g, bad, node, i, visited);
      && (!w.failed ==> forall k :: i <= k < |g[node].preds| ==> g[node].preds[k] in w.visited)
      && (!w.failed ==> forall n :: n in w.visited - visited ==> PredsIn(g, n, w.visited))
    decreases g.Keys - visited, 0, |g[node].preds| - i
  {
    if i < |g[node].preds| {
      var p := g[node].preds[i];
      if p in visited {
        WalkPredsCloses(g, bad, node, i + 1, visited);
      } else {
        var first := WalkNode(g, bad, p, visited + {p});
        WalkNodeCloses(g, bad, p, visited + {p});
        if !first.failed {
          var rest := WalkPreds(g, bad, node, i + 1, first.visited);
          WalkPredsCloses(g, bad, node, i + 1, first.visited);
          if !rest.failed {
            forall n | n in rest.visited - visited ensures PredsIn(g, n, rest.visited) {
              if n in first.visited {
                PredsInMono(g, n, first.visited, rest.visited);
              }
            }
          }
        }
      }
    }
  }

  /**
   * Every predecessor of a node of `t` is in `before` or occurs earlier in `t`.
   */
  ghost predicate PredsBefore(g: Graph, t: seq<NodeId>, before: set<NodeId>)
  {
    forall i, k :: 0 <= i < |t| && t[i] in g && 0 <= k < |g[t[i]].preds| ==>
      g[t[i]].preds[k] in before || g[t[i]].preds[k] in t[..i]
  }

  /** `t` is a post-order: every input of a node precedes it. */
  ghost predicate PostOrder(g: Graph, t: seq<NodeId>)
  {
    PredsBefore(g, t, {})
  }

  lemma {:induction false} PredsBeforeAppend(g: Graph, s: seq<NodeId>, t: seq<NodeId>, before: set<NodeId>)
    requires PredsBefore(g, s, before) && PredsBefore(g, t, before + Elems(s))
    ensures PredsBefore(g, s + t, before)
  {
    var st := s + t;
    forall j, k | 0 <= j < |st| && st[j] in g && 0 <= k < |g[st[j]].preds|
      ensures g[st[j]].preds[k] in before || g[st[j]].preds[k] in st[..j]
    {
      var q := g[st[j]].preds[k];
      if j < |s| {
        assert st[..j] == s[..j];
      } else {
        var jt := j - |s|;
        assert st[j] == t[jt];
        assert st[..j] == s + t[..jt];
        if q in Elems(s) {
          var m :| 0 <= m < |s| && s[m] == q;
          assert st[..j][m] == q;
        }
      }
    }
  }

  /** An input that ranks no lower than every node of `t` is never an input of one of them. */
  lemma {:induction false} PredsBeforeDrop(g: Graph, t: seq<NodeId>, before: set<NodeId>, p: NodeId, rank: map<NodeId, nat>)
    requires WellFormed(g) && Ranked(g, rank) && p in rank && PredsBefore(g, t, before + {p})
    requires (forall j :: 0 <= j < |t| ==> t[j] in g) && RankedBelow(rank, t, rank[p] + 1)
    ensures PredsBefore(g, t, before)
  {
    forall j, k | 0 <= j < |t| && t[j] in g && 0 <= k < |g[t[j]].preds|
      ensures g[t[j]].preds[k] in before || g[t[j]].preds[k] in t[..j]
    {
      RankedEdge(g, rank, t[j], k);
    }
  }

  /** Every node of `t` has a rank below `r`. */
  ghost predicate RankedBelow(rank: map<NodeId, nat>, t: seq<NodeId>, r: nat)
  {
    forall j :: 0 <= j < |t| ==> t[j] in rank && rank[t[j]] < r
  }

  lemma {:induction false} RankedBelowAppend(rank: map<NodeId, nat>, s: seq<NodeId>, t: seq<NodeId>, r: nat)
    requires RankedBelow(rank, s, r) && RankedBelow(rank, t, r)
    ensures RankedBelow(rank, s + t, r)
  {
    forall j | 0 <= j < |s + t| ensures (s + t)[j] in rank && rank[(s + t)[j]] < r {
      if j < |s| {
        assert (s + t)[j] == s[j];
      } else {
        assert (s + t)[j] == t[j - |s|];
      }
    }
  }

  /** Along a ranking, a walk produces only nodes ranked below the node, and then the node. */
  lemma {:induction false} WalkNodeRanks(g: Graph, bad: set<NodeId>, node: NodeId, visited: set<NodeId>,
                                          rank: map<NodeId, nat>)
    requires WellFormed(g) && node in g && visited <= g.Keys && Ranked(g, rank)
    ensures var t := WalkNode(g, bad, node, visited).trace;
      RankedBelow(rank, t[..|t| - 1], rank[node]) && RankedBelow(rank, t, rank[node] + 1)
    decreases g.Keys - visited, 1
  {
    var t := WalkNode(g, bad, node, visited).trace;
    var inputs := WalkPreds(g, bad, node, 0, visited);
    WalkPredsRanks(g, bad, node, 0, visited, rank);
    if inputs.failed {
      assert t == inputs.trace;
      assert t[..|t| - 1] + [t[|t| - 1]] == t;
      RankedBelowAppend(rank, t[..|t| - 1], [t[|t| - 1]], rank[node]);
    } else {
      assert t[..|t| - 1] == inputs.trace;
      RankedBelowAppend(rank, inputs.trace, [node], rank[node] + 1);
      assert t == inputs.trace + [node];
    }
  }

  lemma {:induction false} WalkPredsRanks(g: Graph, bad: set<NodeId>, node: NodeId, i: nat, visited: set<NodeId>,
                                           rank: map<NodeId, nat>)
    requires WellFormed(g) && node in g && i <= |g[node].preds| && visited <= g.Keys && Ranked(g, rank)
    ensures RankedBelow(rank, WalkPreds(g, bad, node, i, visited).trace, rank[node])
    decreases g.Keys - visited, 0, |g[node].preds| - i
  {
    if i < |g[node].preds| {
      var p := g[node].preds[i];
      RankedEdge(g, rank, node, i);
      if p in visited {
        WalkPredsRanks(g, bad, node, i + 1, visited, rank);
      } else {
        var first := WalkNode(g, bad, p, visited + {p});
        WalkNodeRanks(g, bad, p, visited + {p}, rank);
        assert RankedBelow(rank, first.trace, rank[node]);
        if !first.failed {
          var rest := WalkPreds(g, bad, node, i + 1, first.visited);
          WalkPredsRanks(g, bad, node, i + 1, first.visited, rank);
          RankedBelowAppend(rank, first.trace, rest.trace, rank[node]);
        }
      }
    }
  }

  /**
   * Along a ranking, a walk produces the inputs of every node before the node:
   * it is a post-order below the node.
   */
  lemma {:induction false} WalkNodeOrdered(g: Graph, bad: set<NodeId>, node: NodeId, visited: set<NodeId>,
                                            rank: map<NodeId, nat>)
    requires WellFormed(g) && node in g && visited <= g.Keys && Ranked(g, rank)
    ensures PredsBefore(g, WalkNode(g, bad, node, visited).trace, visited)
    decreases g.Keys - visited, 1
  {
    var inputs := WalkPreds(g, bad, node, 0, visited);
    WalkPredsOrdered(g, bad, node, 0, visited, rank);
    if !inputs.failed {
      WalkPredsFresh(g, bad, node, 0, visited);
      WalkPredsCloses(g, bad, node, 0, visited);
      assert PredsBefore(g, [node], visited + Elems(inputs.trace));
      PredsBeforeAppend(g, inputs.trace, [node], visited);
    }
  }

  lemma {:induction false} WalkPredsOrdered(g: Graph, bad: set<NodeId>, node: NodeId, i: nat, visited: set<NodeId>,
                                             rank: map<NodeId, nat>)
    requires WellFormed(g) && node in g && i <= |g[node].preds| && visited <= g.Keys && Ranked(g, rank)
    ensures PredsBefore(g, WalkPreds(g, bad, node, i, visited).trace, visited)
    decreases g.Keys - visited, 0, |g[node].preds| - i
  {
    if i < |g[node].preds| {
      var p := g[node].preds[i];
      if p in visited {
        WalkPredsOrdered(g, bad, node, i + 1, visited, rank);
      } else {
        var first := WalkNode(g, bad, p, visited + {p});
        WalkNodeOrdered(g, bad, p, visited + {p}, rank);
        WalkNodeRanks(g, bad, p, visited + {p}, rank);
        var ft := first.trace;
        PredsBeforeDrop(g, ft, visited, p, rank);
        if !first.failed {
          var rest := WalkPreds(g, bad, node, i + 1, first.visited);
          WalkPredsOrdered(g, bad, node, i + 1, first.visited, rank);
          WalkNodeFresh(g, bad, p, visited + {p});
          var inner := ft[..|ft| - 1];
          assert ft == inner + [p];
          ElemsSnoc(inner, p);
          PredsBeforeAppend(g, ft, rest.trace, visited);
        }
      }
    }
  }

  /** A successful walk from a fresh start produces exactly the nodes reachable from where it began. */
  lemma {:induction false} WalkReach(g: Graph, bad: set<NodeId>, end: NodeId)
    requires WellFormed(g) && end in g
    ensures var w := WalkNode(g, bad, end, {});
      !w.failed ==> w.trace[|w.trace| - 1] == end && IsReach(g, end, Elems(w.trace))
  {
    var w := WalkNode(g, bad, end, {});
    var trace := w.trace;
    var inner := trace[..|trace| - 1];
    assert trace == inner + [trace[|trace| - 1]];
    ElemsSnoc(inner, trace[|trace| - 1]);
    WalkNodeFresh(g, bad, end, {});
    if !w.failed {
      WalkNodeCloses(g, bad, end, {});
      forall n | n in Elems(trace) ensures PredsIn(g, n, Elems(trace)) {
        PredsInMono(g, n, w.visited, Elems(trace));
      }
      forall c | Closed(g, c) && end in c ensures Elems(trace) <= c {
        WalkNodeStaysIn(g, bad, end, {}, c);
      }
    }
  }

  /** On an acyclic graph a walk from a fresh start produces each node once, inputs first. */
  lemma {:induction false} WalkAcyclic(g: Graph, bad: set<NodeId>, end: NodeId, rank: map<NodeId, nat>)
    requires WellFormed(g) && end in g && Ranked(g, rank)
    ensures var t := WalkNode(g, bad, end, {}).trace; NoDup(t) && PostOrder(g, t)
  {
    var t := WalkNode(g, bad, end, {}).trace;
    var inner := t[..|t| - 1];
    assert t == inner + [t[|t| - 1]];
    WalkNodeFresh(g, bad, end, {});
    WalkNodeRanks(g, bad, end, {}, rank);
    WalkNodeOrdered(g, bad, end, {}, rank);
    if t[|t| - 1] == end {
      assert forall m :: 0 <= m < |inner| ==> inner[m] != end;
      ElemsSnoc(inner, end);
    }
  }

  /**
   * A walk from a fresh start that succeeds produces exactly the nodes reachable
   * from where it began, ending there; on an acyclic graph each once, inputs first.
   */
  lemma {:induction false} WalkShape(g: Graph, bad: set<NodeId>, end: NodeId)
    requires WellFormed(g) && end in g
    ensures var w := WalkNode(g, bad, end, {});
      && (!w.failed ==> w.trace[|w.trace| - 1] == end && IsReach(g, end, Elems(w.trace)))
      && (Acyclic(g) ==> NoDup(w.trace) && PostOrder(g, w.trace))
  {
    WalkReach(g, bad, end);
    if Acyclic(g) {
      var rank :| Ranked(g, rank);
      WalkAcyclic(g, bad, end, rank);
    }
  }

  /** Every node of a walk before its last one produces its lines. */
  lemma {:induction false} CompletedOk(g: Graph, regs: map<NodeId, nat>, errs: map<NodeId, Error>, w: Walk)
    requires WellFormed(g) && FailsOn(g, regs, errs) && Emittable(g, errs.Keys, w)
    ensures forall j :: 0 <= j < |w.trace| - 1 ==> NodeLines(g, regs, w.trace[j]).Ok?
  {
    forall j | 0 <= j < |w.trace| - 1 ensures NodeLines(g, regs, w.trace[j]).Ok? {
      var c := Completed(w);
      assert j < |c| && c[j] == w.trace[j];
      assert c[j] !in errs;
    }
  }

  /**
   * The walk from the end block with a fresh visited set, where the nodes that
   * cannot be emitted are those whose lines fail: everything but its last node
   * emits, the last fails exactly when the walk does, and what is emitted
   * consists of body lines.
   */
  lemma {:induction false} GraphWalk(g: Graph, regs: map<NodeId, nat>, end: NodeId)
    requires WellFormed(g) && end in g
    ensures var errs := ErrorTable(g, regs);
      var w := WalkNode(g, errs.Keys, end, {});
      var t := w.trace;
      && (forall i :: 0 <= i < |t| ==> t[i] in g)
      && (forall j :: 0 <= j < |t| - 1 ==> NodeLines(g, regs, t[j]).Ok?)
      && (w.failed <==> NodeLines(g, regs, t[|t| - 1]).Err?)
      && (w.failed ==> errs[t[|t| - 1]] == NodeLines(g, regs, t[|t| - 1]).error)
      && Completed(w) == (if w.failed then t[..|t| - 1] else t)
      && AllBody(Emitted(LineTable(g, regs), Completed(w)))
  {
    var errs := ErrorTable(g, regs);
    TabulatesGraph(g, regs);
    var w := WalkNode(g, errs.Keys, end, {});
    CompletedOk(g, regs, errs, w);
    EmittedAreBody(g, regs, LineTable(g, regs), Completed(w));
  }

  /**
   * `generateForGraph`: a walk from the end block with a fresh visited set.
   * On success the trace holds exactly the nodes reachable from the end block,
   * ending with it; on an acyclic graph each of them once, inputs first.
   */
  method GenerateForGraph(g: Graph, end: NodeId, regs: map<NodeId, nat>, out: seq<string>)
    returns (err: Option<Error>, out': seq<string>, ghost trace: seq<NodeId>)
    requires WellFormed(g) && end in g
    ensures trace == WalkNode(g, ErrorTable(g, regs).Keys, end, {}).trace
    ensures err.None? <==> !WalkNode(g, ErrorTable(g, regs).Keys, end, {}).failed
    ensures trace != [] && forall i :: 0 <= i < |trace| ==> trace[i] in g
    ensures forall j :: 0 <= j < |trace| - 1 ==> NodeLines(g, regs, trace[j]).Ok?
    ensures err.None? <==> NodeLines(g, regs, trace[|trace| - 1]).Ok?
    ensures err.Some? ==> err.value == NodeLines(g, regs, trace[|trace| - 1]).error
    ensures out' == out + Emitted(LineTable(g, regs), if err.None? then trace else trace[..|trace| - 1])
    ensures AllBody(out'[|out|..])
    ensures err.None? ==> trace[|trace| - 1] == end && IsReach(g, end, Elems(trace))
    ensures Acyclic(g) ==> NoDup(trace) && PostOrder(g, trace)
  {
    ghost var errs := ErrorTable(g, regs);
    TabulatesGraph(g, regs);
    var visited;
    err, visited, out' := Scan(g, regs, errs, LineTable(g, regs), end, {}, out);
    ghost var w := WalkNode(g, errs.Keys, end, {});
    trace := w.trace;
    GraphWalk(g, regs, end);
    WalkShape(g, errs.Keys, end);
    ghost var e := Emitted(LineTable(g, regs), Completed(w));
    assert out'[|out|..] == e;
    if err.None? {
      assert Completed(w) == trace;
    } else {
      assert Completed(w) == trace[..|trace| - 1];
    }
  }

  /** Joins the lines, each terminated by a line feed. */
  function Text(lines: seq<string>): (s: string)
    ensures |s| >= |lines|
  {
    if lines == [] then "" else lines[0] + "\n" + Text(lines[1..])
  }

  /** Joining distributes over concatenation: appending lines appends their text. */
  lemma {:induction false} TextAppend(a: seq<string>, b: seq<string>)
    ensures Text(a + b) == Text(a) + Text(b)
  {
    if a != [] {
      TextAppend(a[1..], b);
      assert (a + b)[1..] == a[1..] + b;
    } else {
      assert a + b == b;
    }
  }

  /** The shim, then body lines only. */
  ghost predicate Shimmed(lines: seq<string>)
  {
    |lines| >= |Header| && lines[..|Header|] == Header && AllBody(lines[|Header|..])
  }

  lemma {:induction false} ShimmedGrows(lines: seq<string>, extra: seq<string>)
    requires Shimmed(lines) && AllBody(extra)
    ensures Shimmed(lines + extra)
  {
    assert (lines + extra)[..|Header|] == lines[..|Header|];
    assert (lines + extra)[|Header|..] == lines[|Header|..] + extra;
    AllBodyAppend(lines[|Header|..], extra);
  }

  /** The text of shimmed output starts with the text of the shim. */
  lemma {:induction false} ShimmedText(lines: seq<string>)
    requires Shimmed(lines)
    ensures Text(Header) <= Text(lines)
  {
    TextAppend(Header, lines[|Header|..]);
    assert Header + lines[|Header|..] == lines;
  }

  /** In shimmed output every line after the shim is a body line, and none of them equals a shim line. */
  lemma {:induction false} ShimmedOnce(lines: seq<string>)
    requires Shimmed(lines)
    ensures forall i :: |Header| <= i < |lines| ==> IsBodyLine(lines[i]) && lines[i] !in Header
  {
    HeaderIsNotBody();
    forall i | |Header| <= i < |lines| ensures IsBodyLine(lines[i]) && lines[i] !in Header {
      assert lines[i] == lines[|Header|..][i - |Header|];
    }
  }

  /** Every graph of the program is well formed and contains its end block. */
  ghost predicate ValidProgram(program: seq<Unit>)
  {
    forall i :: 0 <= i < |program| ==> WellFormed(program[i].graph) && program[i].end in program[i].graph
  }

  /** The walk `generateForGraph` performs on one graph: from the end block with nothing visited. */
  ghost function UnitWalk(u: Unit): (w: Walk)
    requires WellFormed(u.graph) && u.end in u.graph
    ensures w.trace != [] && Emittable(u.graph, ErrorTable(u.graph, u.registers).Keys, w)
  {
    WalkNode(u.graph, ErrorTable(u.graph, u.registers).Keys, u.end, {})
  }

  /** The lines one graph contributes: those of every walked node except a failing last one. */
  ghost function UnitBody(u: Unit): seq<string>
    requires WellFormed(u.graph) && u.end in u.graph
  {
    var w := UnitWalk(u);
    assert forall j :: 0 <= j < |Completed(w)| ==> Completed(w)[j] == w.trace[j];
    Emitted(LineTable(u.graph, u.registers), Completed(w))
  }

  /** The error of one graph: that of the walk's last node when the walk fails. */
  ghost function UnitFailure(u: Unit): Option<Error>
    requires WellFormed(u.graph) && u.end in u.graph
  {
    var w := UnitWalk(u);
    if w.failed then Some(ErrorTable(u.graph, u.registers)[w.trace[|w.trace| - 1]]) else None
  }

  /** What emitting a program produces: its graph bodies, lines and first error. */
  datatype Outcome = Outcome(lines: seq<string>, failure: Option<Error>)

  /**
   * The bodies of the graphs in program order, up to and including the first
   * graph whose walk fails, and that graph's error.
   */
  ghost function Program(program: seq<Unit>): Outcome
    requires ValidProgram(program)
    decreases |program|
  {
    if program == [] then Outcome([], None)
    else
      var before := Program(program[..|program| - 1]);
      var u := program[|program| - 1];
      if before.failure.Some? then before
      else Outcome(before.lines + UnitBody(u), UnitFailure(u))
  }

  /** Emitting one more graph after a prefix that did not fail. */
  lemma {:induction false} ProgramSnoc(program: seq<Unit>, k: nat)
    requires ValidProgram(program) && k < |program| && Program(program[..k]).failure.None?
    ensures Program(program[..k + 1]).lines == Program(program[..k]).lines + UnitBody(program[k])
    ensures Program(program[..k + 1]).failure == UnitFailure(program[k])
  {
    assert program[..k + 1][..k] == program[..k];
  }

  /** The loop of `generateCode` keeps the builder equal to the shim and the bodies emitted so far. */
  lemma {:induction false} EmitStep(program: seq<Unit>, k: nat, before: seq<string>, after: seq<string>)
    requires ValidProgram(program) && k < |program| && Program(program[..k]).failure.None?
    requires Shimmed(before) && before == Header + Program(program[..k]).lines
    requires after == before + UnitBody(program[k]) && AllBody(UnitBody(program[k]))
    ensures Shimmed(after) && after == Header + Program(program[..k + 1]).lines
    ensures Program(program[..k + 1]).failure == UnitFailure(program[k])
  {
    ProgramSnoc(program, k);
    ShimmedGrows(before, UnitBody(program[k]));
    AppendAssoc(Header, Program(program[..k]).lines, UnitBody(program[k]));
  }

  /** Once a prefix has failed, the graphs after it change nothing. */
  lemma {:induction false} ProgramStops(program: seq<Unit>, k: nat)
    requires ValidProgram(program) && k <= |program| && Program(program[..k]).failure.Some?
    ensures Program(program) == Program(program[..k])
    decreases |program|
  {
    if k == |program| {
      assert program[..k] == program;
    } else {
      var init := program[..|program| - 1];
      assert init[..k] == program[..k];
      ProgramStops(init, k);
    }
  }

  /**
   * `generateCode`: the shim once, then the body of every graph in program
   * order, up to the first graph that fails, whose error is the result.  No
   * body line equals a shim line, so the shim occurs exactly once, however many
   * graphs there are.
   */
  method GenerateCode(program: seq<Unit>) returns (res: Result<string>, ghost lines: seq<string>)
    requires ValidProgram(program)
    ensures lines == Header + Program(program).lines && Shimmed(lines)
    ensures res.Ok? <==> Program(program).failure.None?
    ensures res.Err? ==> res.error == Program(program).failure.value
    ensures res.Ok? ==> res.value == Text(lines) && Text(Header) <= res.value
  {
    var builder := Header;
    assert builder[|Header|..] == [];
    assert program[..0] == [];
    for u := 0 to |program|
      invariant Shimmed(builder)
      invariant builder == Header + Program(program[..u]).lines && Program(program[..u]).failure.None?
    {
      var unit := program[u];
      ghost var before := builder;
      var err;
      err, builder := EmitUnit(unit, builder);
      EmitStep(program, u, before, builder);
      if err.Some? {
        ProgramStops(program, u + 1);
        lines := builder;
        return Err(err.value), lines;
      }
    }
    assert program[..|program|] == program;
    lines := builder;
    ShimmedText(lines);
    res := Ok(Text(builder));
  }

  /** One pass of `generateCode`'s loop: `generateForGraph` on one graph, in terms of the program-level definitions. */
  method EmitUnit(unit: Unit, out: seq<string>) returns (err: Option<Error>, out': seq<string>)
    requires WellFormed(unit.graph) && unit.end in unit.graph
    ensures out' == out + UnitBody(unit) && AllBody(UnitBody(unit))
    ensures err == UnitFailure(unit)
  {
    ghost var trace;
    err, out', trace := GenerateForGraph(unit.graph, unit.end, unit.registers, out);
    GraphStep(unit, out, err, out');
  }

  /** What `generateForGraph` appends and reports is the graph's body and failure. */
  lemma {:induction false} GraphStep(unit: Unit, before: seq<string>, err: Option<Error>, after: seq<string>)
    requires WellFormed(unit.graph) && unit.end in unit.graph
    requires var w := WalkNode(unit.graph, ErrorTable(unit.graph, unit.registers).Keys, unit.end, {});
      && (err.None? <==> !w.failed)
      && (err.Some? ==> err.value == NodeLines(unit.graph, unit.registers, w.trace[|w.trace| - 1]).error)
      && after == before + Emitted(LineTable(unit.graph, unit.registers),
                                    if err.None? then w.trace else w.trace[..|w.trace| - 1])
      && AllBody(after[|before|..])
    ensures after == before + UnitBody(unit) && AllBody(UnitBody(unit))
    ensures err == UnitFailure(unit)
  {
    var w := UnitWalk(unit);
    assert Completed(w) == if err.None? then w.trace else w.trace[..|w.trace| - 1];
    assert after[|before|..] == UnitBody(unit);
  }
}
