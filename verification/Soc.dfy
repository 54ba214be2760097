/** The SOC script interpreter: scripts are sequences of commands, rcload runs another script to
    a limited depth, and register commands go to BAR0 or over SBUS by address. */
module Soc {
  import opened Bits
  import opened Wrappers

  const MAX_DEPTH: nat := 8
  const BAR0_SIZE: nat := 0x40000

  datatype Target = Addr(addr: Word) | Name(name: string)

  // One tokenised line. Nop stands for the commands that are skipped.
  datatype Cmd =
    | Nop
    | InitAll
    | RcLoad(path: string)
    | SetReg(target: Target, value: Word)
    | GetReg(addr: Word)
    | Modify(reg: string, field: string, bits: nat)

  type Scripts = map<string, seq<Cmd>>

  // ----- Named registers -----

  const REG_TABLE: seq<(string, Word)> := [
    ("rdbgc0_select", 0x06500380), ("rdbgc3_select", 0x065003a0), ("rdbgc4_select", 0x065003a4),
    ("rdbgc5_select", 0x065003a8), ("rdbgc6_select", 0x065003ac), ("tdbgc6_select", 0x04b00200),
    ("ifp_meter_parity_control", 0x0a400000), ("xmac_tx_ctrl", 0x40a0082c),
    ("rtag7_hash_seed_a", 0x05e00180), ("rtag7_hash_ecmp", 0x05e00200), ("cmic_misc_control", 0x0000001c)]

  function Lower(s: string): (r: string)
    ensures |r| == |s|
  {
    if s == "" then ""
    else [if 'A' <= s[0] <= 'Z' then (s[0] as int - 'A' as int + 'a' as int) as char else s[0]] + Lower(s[1..])
  }

  // The address of a register, in any case of letters, or 0.
  function RegLookup(name: string, i: nat := 0): Word
    requires i <= |REG_TABLE|
    decreases |REG_TABLE| - i, name
  {
    if i == |REG_TABLE| then 0
    else if Lower(name) == REG_TABLE[i].0 then REG_TABLE[i].1
    else RegLookup(name, i + 1)
  }

  datatype FieldDef = FieldDef(shift: nat, mask: Word)

  function FieldLookup(reg: string, field: string): Option<FieldDef> {
    if Lower(reg) == "cmic_misc_control" && Lower(field) == "link40g_enable" then Some(FieldDef(0, 1)) else None
  }

  // ----- Register accesses -----

  datatype Access =
    | WriteBar0(addr: Word, value: Word) | WriteSbus(addr: Word, value: Word)
    | ReadBar0(addr: Word) | ReadSbus(addr: Word)
    | ChipInit

  type Trace = seq<Access>

  // What the access at each position of the trace reads, if it succeeds.
  type Inputs = nat -> Option<Word>

  function WriteTo(addr: Word, value: Word): Access {
    if addr < BAR0_SIZE then WriteBar0(addr, value) else WriteSbus(addr, value)
  }

  function ReadFrom(addr: Word): Access {
    if addr < BAR0_SIZE then ReadBar0(addr) else ReadSbus(addr)
  }

  // A failed read counts as 0.
  function Current(inputs: Inputs, n: nat): Word {
    match inputs(n)
    case Some(v) => v
    case None => 0
  }

  // (cur & ~(mask << shift)) | ((value & mask) << shift)
  function Updated(cur: Word, f: FieldDef, value: nat): nat {
    Merge(cur, f.mask * Pow2(f.shift), value * Pow2(f.shift))
  }

  function ModifyAccesses(t: Trace, inputs: Inputs, reg: string, field: string, value: nat): Trace {
    var addr := RegLookup(reg);
    if addr == 0 then []
    else
      match FieldLookup(reg, field)
      case None => []
      case Some(f) =>
        var cur := Current(inputs, |t|);
        BitwiseWordBound(cur, 1, value);
        [ReadFrom(addr), WriteTo(addr, Updated(cur, f, value))]
  }

  lemma BitwiseWordBound(cur: Word, mask: Word, value: nat)
    ensures Merge(cur, mask * Pow2(0), value * Pow2(0)) < 0x1_0000_0000
  {
    Pow2Values();
    BitwiseBound(cur, mask, value * Pow2(0), 32);
  }

  // A command other than rcload.
  function Step(t: Trace, inputs: Inputs, c: Cmd): Trace {
    match c
    case Nop => t
    case RcLoad(_) => t
    case InitAll => t + [ChipInit]
    case SetReg(Addr(a), v) => t + [WriteTo(a, v)]
    case SetReg(Name(n), v) => if RegLookup(n) == 0 then t else t + [WriteTo(RegLookup(n), v)]
    case GetReg(a) => t + [ReadFrom(a)]
    case Modify(r, f, v) => t + ModifyAccesses(t, inputs, r, f, v)
  }

  // ----- The interpreter -----

  // The lines of one script at one nesting depth.
  function RunLines(scripts: Scripts, inputs: Inputs, lines: seq<Cmd>, depth: nat, t: Trace): Trace
    requires depth <= MAX_DEPTH
    decreases MAX_DEPTH - depth, |lines|
  {
    if lines == [] then t
    else
      var t' :=
        if lines[0].RcLoad? then
          if depth < MAX_DEPTH && lines[0].path in scripts
          then RunLines(scripts, inputs, scripts[lines[0].path], depth + 1, t) else t
        else Step(t, inputs, lines[0]);
      RunLines(scripts, inputs, lines[1..], depth, t')
  }

  // ----- Inline expansion -----

  // Every rcload replaced by its script's lines, n levels deep; deeper ones are left standing.
  function Expand(scripts: Scripts, lines: seq<Cmd>, n: nat): seq<Cmd>
    decreases n, |lines|
  {
    if lines == [] then []
    else
      var head :=
        if lines[0].RcLoad? && lines[0].path in scripts then
          if n > 0 then Expand(scripts, scripts[lines[0].path], n - 1) else [lines[0]]
        else [lines[0]];
      head + Expand(scripts, lines[1..], n)
  }

  // Includes of existing scripts nest at most n deep.
  predicate Fits(scripts: Scripts, lines: seq<Cmd>, n: nat)
    decreases n, |lines|
  {
    lines == [] ||
    (&& (lines[0].RcLoad? && lines[0].path in scripts ==>
           n > 0 && Fits(scripts, scripts[lines[0].path], n - 1))
     && Fits(scripts, lines[1..], n))
  }

  function Exec(flat: seq<Cmd>, inputs: Inputs, t: Trace): Trace {
    if flat == [] then t else Exec(flat[1..], inputs, Step(t, inputs, flat[0]))
  }

  lemma {:induction false} ExecConcat(a: seq<Cmd>, b: seq<Cmd>, inputs: Inputs, t: Trace)
    ensures Exec(a + b, inputs, t) == Exec(b, inputs, Exec(a, inputs, t))
  {
    if a == [] {
      assert a + b == b;
    } else {
      assert (a + b)[0] == a[0] && (a + b)[1..] == a[1..] + b;
      ExecConcat(a[1..], b, inputs, Step(t, inputs, a[0]));
    }
  }

  // The interpreter does what the expansion to its remaining depth says.
  lemma {:induction false} RunIsExpansion(scripts: Scripts, inputs: Inputs, lines: seq<Cmd>, depth: nat, t: Trace)
    requires depth <= MAX_DEPTH
    ensures RunLines(scripts, inputs, lines, depth, t) == Exec(Expand(scripts, lines, 8 - depth), inputs, t)
    decreases MAX_DEPTH - depth, |lines|
  {
    hide Step;
    if lines != [] {
      var n := MAX_DEPTH - depth;
      var rest := Expand(scripts, lines[1..], n);
      if lines[0].RcLoad? && depth < MAX_DEPTH && lines[0].path in scripts {
        var inner := Expand(scripts, scripts[lines[0].path], n - 1);
        RunIsExpansion(scripts, inputs, scripts[lines[0].path], depth + 1, t);
        RunIsExpansion(scripts, inputs, lines[1..], depth, Exec(inner, inputs, t));
        ExecConcat(inner, rest, inputs, t);
      } else {
        RcLoadIsNop(t, inputs, lines[0]);
        RunIsExpansion(scripts, inputs, lines[1..], depth, Step(t, inputs, lines[0]));
        ExecConcat([lines[0]], rest, inputs, t);
        assert Exec([lines[0]], inputs, t) == Step(t, inputs, lines[0]);
      }
    }
  }

  lemma RcLoadIsNop(t: Trace, inputs: Inputs, c: Cmd)
    ensures c.RcLoad? ==> Step(t, inputs, c) == t
  {
  }

  // Once the nesting fits, expanding further changes nothing: the expansion is complete.
  lemma {:induction false} ExpansionIsFinal(scripts: Scripts, lines: seq<Cmd>, n: nat, m: nat)
    requires Fits(scripts, lines, n) && n <= m
    ensures Fits(scripts, lines, m) && Expand(scripts, lines, m) == Expand(scripts, lines, n)
    decreases n, |lines|
  {
    if lines != [] {
      ExpansionIsFinal(scripts, lines[1..], n, m);
      if lines[0].RcLoad? && lines[0].path in scripts {
        ExpansionIsFinal(scripts, scripts[lines[0].path], n - 1, m - 1);
      }
    }
  }

  // An existing script is left unexpanded exactly when the nesting does not fit.
  lemma {:induction false} TruncatedIff(scripts: Scripts, lines: seq<Cmd>, n: nat)
    ensures (exists c :: c in Expand(scripts, lines, n) && c.RcLoad? && c.path in scripts) <==> !Fits(scripts, lines, n)
    decreases n, |lines|
  {
    if lines != [] {
      TruncatedIff(scripts, lines[1..], n);
      var rest := Expand(scripts, lines[1..], n);
      if lines[0].RcLoad? && lines[0].path in scripts && n > 0 {
        var inner := Expand(scripts, scripts[lines[0].path], n - 1);
        TruncatedIff(scripts, scripts[lines[0].path], n - 1);
        assert forall c :: c in inner + rest <==> c in inner || c in rest;
      } else {
        assert forall c :: c in [lines[0]] + rest <==> c == lines[0] || c in rest;
      }
    }
  }

  predicate Includes(lines: seq<Cmd>, circle: set<string>) {
    exists q :: q in circle && RcLoad(q) in lines
  }

  predicate Circular(scripts: Scripts, circle: set<string>) {
    forall p | p in circle :: p in scripts && Includes(scripts[p], circle)
  }

  // Scripts that include one another in a circle fit at no depth.
  lemma {:induction false} CyclesNeverFit(scripts: Scripts, circle: set<string>, lines: seq<Cmd>, n: nat)
    requires Circular(scripts, circle) && Includes(lines, circle)
    ensures !Fits(scripts, lines, n)
    decreases n, |lines|
  {
    var q :| q in circle && RcLoad(q) in lines;
    if lines[0] == RcLoad(q) {
      assert q in scripts && Includes(scripts[q], circle);
      hide Circular, Includes;
      if n > 0 {
        CyclesNeverFit(scripts, circle, scripts[q], n - 1);
      }
    } else {
      assert RcLoad(q) in lines[1..];
      assert Includes(lines[1..], circle);
      hide Circular, Includes;
      CyclesNeverFit(scripts, circle, lines[1..], n);
    }
  }

  // A run of a script is the run of its complete expansion, whenever includes nest at most eight
  // deep; however scripts are written, the run ends.
  lemma RunIsInlining(scripts: Scripts, inputs: Inputs, path: string, m: nat)
    requires path in scripts && Fits(scripts, scripts[path], 8) && 8 <= m
    ensures RunLines(scripts, inputs, scripts[path], 0, []) == Exec(Expand(scripts, scripts[path], m), inputs, [])
  {
    RunIsExpansion(scripts, inputs, scripts[path], 0, []);
    ExpansionIsFinal(scripts, scripts[path], MAX_DEPTH, m);
  }

  // ----- Field modification -----

  // The written value has the field's new bits, and elsewhere the bits that were read.
  lemma ModifiedBits(cur: Word, f: FieldDef, value: nat, i: nat)
    ensures BitOf(Updated(cur, f, value), i)
         == if i >= f.shift && BitOf(f.mask, i - f.shift) then BitOf(value, i - f.shift) else BitOf(cur, i)
  {
    hide BitOf, Merge;
    ShlBits(f.mask, f.shift, i);
    ShlBits(value, f.shift, i);
    MergeBits(cur, f.mask * Pow2(f.shift), value * Pow2(f.shift), i);
  }

  // A modification keeps the register's other bits exactly when its read succeeded or those
  // bits were clear already.
  lemma FailedReadClears(reg: Word, read: Option<Word>, f: FieldDef, value: nat)
    requires read.Some? ==> read.value == reg
    ensures var w := Updated(if read.Some? then read.value else 0, f, value);
      (forall i: nat | !(i >= f.shift && BitOf(f.mask, i - f.shift)) :: BitOf(w, i) == BitOf(reg, i))
      <==> read.Some? || forall i: nat | !(i >= f.shift && BitOf(f.mask, i - f.shift)) :: !BitOf(reg, i)
  {
    hide BitOf, Updated;
    var cur: Word := if read.Some? then read.value else 0;
    forall i: nat
      ensures BitOf(Updated(cur, f, value), i)
           == if i >= f.shift && BitOf(f.mask, i - f.shift) then BitOf(value, i - f.shift) else BitOf(cur, i)
      ensures !BitOf(0, i)
    {
      ModifiedBits(cur, f, value, i);
      ZeroBits(i);
    }
  }

  // ----- What each command does on the buses -----

  predicate IsRead(x: Access, addr: Word) {
    if addr < 0x4_0000 then x == ReadBar0(addr) else x == ReadSbus(addr)
  }

  predicate IsWrite(x: Access, addr: Word, value: nat) {
    if addr < 0x4_0000 then x.WriteBar0? && x.addr == addr && x.value == value
    else x.WriteSbus? && x.addr == addr && x.value == value
  }

  // The register that a name stands for, in any case of letters; names[i] is an entry of the table.
  lemma {:induction false} NameIsFound(name: string, i: nat, k: nat)
    requires i <= k < |REG_TABLE| && Lower(name) == REG_TABLE[k].0
    ensures RegLookup(name, i) == REG_TABLE[k].1 != 0
    decreases k - i
  {
    TableIsSane();
    hide Lower;
    if i < k {
      assert REG_TABLE[i].0 != REG_TABLE[k].0;
      NameIsFound(name, i + 1, k);
    }
  }

  // No name stands twice, and no register has address 0, which means unknown.
  lemma TableIsSane()
    ensures forall i, k | 0 <= i < k < |REG_TABLE| :: REG_TABLE[i].0 != REG_TABLE[k].0
    ensures forall i | 0 <= i < |REG_TABLE| :: REG_TABLE[i].1 != 0
  {
    forall i, k | 0 <= i < k < |REG_TABLE| ensures REG_TABLE[i].0 != REG_TABLE[k].0 {
      var (a, b) := (REG_TABLE[i].0, REG_TABLE[k].0);
      assert |a| != |b| || a[5] != b[5] || a[0] != b[0] || a[|a| - 1] != b[|b| - 1];
    }
  }

  lemma {:induction false} NameIsUnknown(name: string, i: nat)
    requires i <= |REG_TABLE| && forall k | i <= k < |REG_TABLE| :: Lower(name) != REG_TABLE[k].0
    ensures RegLookup(name, i) == 0
    decreases |REG_TABLE| - i
  {
    hide Lower;
    if i < |REG_TABLE| {
      NameIsUnknown(name, i + 1);
    }
  }

  lemma {:induction false} LowerChars(s: string, i: nat)
    requires i < |s|
    ensures Lower(s)[i] == if 'A' <= s[i] <= 'Z' then (s[i] as int + 32) as char else s[i]
    decreases i
  {
    if i > 0 {
      LowerChars(s[1..], i - 1);
    }
  }

  // A register named in a command: entry k of the table, in any case of letters.
  predicate Names(name: string, k: nat)
    requires k < |REG_TABLE|
  {
    Lower(name) == REG_TABLE[k].0
  }

  predicate Unknown(name: string) {
    forall k: nat | k < |REG_TABLE| :: !Names(name, k)
  }

  lemma NameResolves(name: string, k: nat)
    requires k < |REG_TABLE|
    ensures Names(name, k) ==> RegLookup(name) == REG_TABLE[k].1 != 0
    ensures Unknown(name) ==> RegLookup(name) == 0
  {
    hide RegLookup, Lower;
    if Names(name, k) {
      NameIsFound(name, 0, k);
    }
    if Unknown(name) {
      forall k: nat | k < |REG_TABLE| ensures Lower(name) != REG_TABLE[k].0 {
        assert !Names(name, k);
      }
      NameIsUnknown(name, 0);
    }
  }

  // A setreg is one write of its value to its register, over BAR0 below 0x40000 and over SBUS from
  // there on; of an unknown register it is nothing. A getreg is one read.
  lemma SetAndGet(t: Trace, inputs: Inputs, a: Word, name: string, k: nat, v: Word)
    requires k < |REG_TABLE|
    ensures var t' := Step(t, inputs, SetReg(Addr(a), v));
      |t'| == |t| + 1 && t'[..|t|] == t && IsWrite(t'[|t|], a, v)
    ensures var t' := Step(t, inputs, GetReg(a));
      |t'| == |t| + 1 && t'[..|t|] == t && IsRead(t'[|t|], a)
    ensures Names(name, k) ==>
      var t' := Step(t, inputs, SetReg(Name(name), v));
      |t'| == |t| + 1 && t'[..|t|] == t && IsWrite(t'[|t|], REG_TABLE[k].1, v)
    ensures Unknown(name) ==> Step(t, inputs, SetReg(Name(name), v)) == t
  {
    NameResolves(name, k);
    hide RegLookup, Lower, Names, Unknown;
  }

  // The bits of a word, or of zero, with bit 0 from a value.
  ghost predicate HasBit0(w: nat, read: Option<Word>, v: nat) {
    forall i: nat :: BitOf(w, i) == if i == 0 then BitOf(v, 0) else read.Some? && BitOf(read.value, i)
  }

  // The one field that can be modified is bit 0 of the register at 0x1c: a read of the register
  // and a write of what was read, or of zeros, with bit 0 from the value. Any other field is none.
  lemma ModifyIsReadAndWrite(t: Trace, inputs: Inputs, reg: string, field: string, v: nat)
    ensures var t' := Step(t, inputs, Modify(reg, field, v));
      if Lower(reg) == "cmic_misc_control" && Lower(field) == "link40g_enable" then
        && |t'| == |t| + 2 && t'[..|t|] == t && IsRead(t'[|t|], 0x1c)
        && t'[|t| + 1].WriteBar0? && t'[|t| + 1].addr == 0x1c && HasBit0(t'[|t| + 1].value, inputs(|t|), v)
      else t' == t
  {
    hide Lower, RegLookup, Updated, HasBit0;
    if Lower(reg) == "cmic_misc_control" && Lower(field) == "link40g_enable" {
      NameIsFound(reg, 0, 10);
      BitwiseWordBound(Current(inputs, |t|), 1, v);
      UpdatedBit0(inputs(|t|), v);
    }
  }

  lemma UpdatedBit0(read: Option<Word>, v: nat)
    ensures HasBit0(Updated(if read.Some? then read.value else 0, FieldDef(0, 1), v), read, v)
  {
    hide BitOf, Updated;
    var cur: Word := if read.Some? then read.value else 0;
    forall i: nat
      ensures BitOf(Updated(cur, FieldDef(0, 1), v), i)
           == if i == 0 then BitOf(v, 0) else read.Some? && BitOf(read.value, i)
    {
      ModifiedBits(cur, FieldDef(0, 1), v, i);
      OneBit(i);
      ZeroBits(i);
    }
  }

  lemma OneBit(i: nat)
    ensures BitOf(1, i) <==> i == 0
  {
    if i > 0 {
      ZeroBits(i - 1);
    }
  }

  predicate Routed(x: Access) {
    match x
    case WriteBar0(a, _) => a < 0x4_0000
    case ReadBar0(a) => a < 0x4_0000
    case WriteSbus(a, _) => a >= 0x4_0000
    case ReadSbus(a) => a >= 0x4_0000
    case ChipInit => true
  }

  // Every access of every run goes to the bus that its address belongs to.
  lemma {:induction false} RunIsRouted(flat: seq<Cmd>, inputs: Inputs, t: Trace)
    requires forall x | x in t :: Routed(x)
    ensures forall x | x in Exec(flat, inputs, t) :: Routed(x)
  {
    if flat != [] {
      assert forall x | x in Step(t, inputs, flat[0]) :: Routed(x);
      hide Step, Routed;
      RunIsRouted(flat[1..], inputs, Step(t, inputs, flat[0]));
    }
  }

  lemma EveryRunIsRouted(scripts: Scripts, inputs: Inputs, lines: seq<Cmd>, x: Access)
    ensures x in RunLines(scripts, inputs, lines, 0, []) ==> Routed(x)
  {
    hide Exec, RunLines, Expand;
    RunIsExpansion(scripts, inputs, lines, 0, []);
    RunIsRouted(Expand(scripts, lines, MAX_DEPTH), inputs, []);
  }

  // ----- The runner -----

  class Runner {
    const scripts: Scripts
    const inputs: Inputs
    var depth: nat
    var trace: Trace

    constructor (scripts: Scripts, inputs: Inputs)
      ensures this.scripts == scripts && this.inputs == inputs && depth == 0 && trace == []
    {
      this.scripts := scripts;
      this.inputs := inputs;
      depth, trace := 0, [];
    }

    // A missing script does nothing and is reported; the depth counter comes back as it was.
    method RunInternal(path: string) returns (rc: int)
      requires depth <= MAX_DEPTH
      modifies this
      ensures depth == old(depth)
      ensures rc == if path in scripts then 0 else -1
      ensures trace == if path in scripts then RunLines(scripts, inputs, scripts[path], depth, old(trace))
                       else old(trace)
      decreases MAX_DEPTH - depth
    {
      hide Step;
      if path !in scripts {
        return -1;
      }
      var lines := scripts[path];
      for i := 0 to |lines|
        invariant depth == old(depth)
        invariant RunLines(scripts, inputs, lines[i..], depth, trace)
               == RunLines(scripts, inputs, lines, depth, old(trace))
      {
        assert lines[i..][0] == lines[i] && lines[i..][1..] == lines[i + 1..];
        if lines[i].RcLoad? {
          if depth < MAX_DEPTH {
            depth := depth + 1;
            var _ := RunInternal(lines[i].path);
            depth := depth - 1;
          }
        } else {
          Execute(lines[i]);
        }
      }
      rc := 0;
    }

    method Execute(c: Cmd)
      requires !c.RcLoad?
      modifies this`trace
      ensures trace == Step(old(trace), inputs, c)
    {
      match c {
        case Nop =>
        case InitAll => trace := trace + [ChipInit];
        case SetReg(target, v) =>
          var addr := match target case Addr(a) => a case Name(n) => RegLookup(n);
          if target.Addr? || addr != 0 {
            trace := trace + [WriteTo(addr, v)];
          }
        case GetReg(a) => trace := trace + [ReadFrom(a)];
        case Modify(r, f, v) =>
          var addr := RegLookup(r);
          var def := FieldLookup(r, f);
          if addr != 0 && def.Some? {
            var cur := Current(inputs, |trace|);
            trace := trace + [ReadFrom(addr)];
            BitwiseWordBound(cur, 1, v);
            trace := trace + [WriteTo(addr, Updated(cur, def.value, v))];
          }
      }
    }

    // The public entry point.
    method SocRun(path: string) returns (rc: int)
      modifies this
      ensures depth == 0
      ensures rc == if path in scripts then 0 else -1
      ensures trace == if path in scripts then RunLines(scripts, inputs, scripts[path], 0, old(trace)) else old(trace)
    {
      depth := 0;
      rc := RunInternal(path);
    }
  }
}
