/**
 Exponentiation: the square-and-multiply `exp` that computes the constants at
 macro time, and the straight-line programs that `pow_fixed::generate` emits
 from an addition chain.
 */
module PowFixed {
  import opened Arith
  import opened Common
  import opened Digits
  import opened Residue

  // ---- exp ----------------------------------------------------------------

  lemma {:induction false} ShrIsDiv(x: nat, i: nat, q: nat)
    requires x < Pow(2, i + q)
    ensures Shr(x, i) < Pow(2, q)
  {
    if i > 0 {
      ShrIsDiv(x, i - 1, q + 1);
    }
  }

  /** The bits of one byte, most significant first. */
  function ByteBits(x: nat): (s: seq<bool>)
    ensures |s| == 8
  {
    seq(8, n requires 0 <= n < 8 => Shr(x, 7 - n) % 2 == 1)
  }

  function Bits(bytes: seq<nat>): seq<bool>
  {
    if bytes == [] then [] else Bits(bytes[..|bytes| - 1]) + ByteBits(bytes[|bytes| - 1])
  }

  ghost function BitVal(s: seq<bool>): nat
  {
    if s == [] then 0 else 2 * BitVal(s[..|s| - 1]) + (if s[|s| - 1] then 1 else 0)
  }

  lemma BitAt(x: nat, n: nat)
    requires 0 < n <= 8
    ensures Shr(x, 8 - n) == 2 * Shr(x, 8 - (n - 1)) + (if ByteBits(x)[n - 1] then 1 else 0)
  {
    assert Shr(x, 8 - n + 1) == Shr(x, 8 - n) / 2;
  }

  lemma BitValAppend(s: seq<bool>, b: bool)
    ensures BitVal(s + [b]) == 2 * BitVal(s) + (if b then 1 else 0)
  {
    assert (s + [b])[..|s|] == s;
  }

  lemma BitValStep(s: seq<bool>, init: seq<bool>, b: bool, power: int, high: nat)
    requires BitVal(s + init) == power * BitVal(s) + high
    ensures BitVal(s + (init + [b])) == (2 * power) * BitVal(s) + (2 * high + (if b then 1 else 0))
  {
    assert s + (init + [b]) == (s + init) + [b];
    BitValAppend(s + init, b);
    DoubleProduct(power, BitVal(s), high);
  }

  lemma DoubleProduct(power: int, x: nat, high: nat)
    ensures 2 * (power * x + high) == (2 * power) * x + 2 * high
  {
  }

  lemma {:induction false} ByteBitsValue(s: seq<bool>, x: nat, n: nat)
    requires x < 256 && n <= 8
    ensures BitVal(s + ByteBits(x)[..n]) == Pow(2, n) * BitVal(s) + Shr(x, 8 - n)
  {
    var bits := ByteBits(x);
    if n == 0 {
      assert s + bits[..0] == s;
      assert Pow(2, 8) == 256;
      ShrIsDiv(x, 8, 0);
    } else {
      ByteBitsValue(s, x, n - 1);
      BitAt(x, n);
      assert bits[..n] == bits[..n - 1] + [bits[n - 1]];
      BitValStep(s, bits[..n - 1], bits[n - 1], Pow(2, n - 1), Shr(x, 8 - (n - 1)));
    }
  }

  lemma {:induction false} BitsValue(bytes: seq<nat>)
    requires IsDigits(bytes, 256)
    ensures BitVal(Bits(bytes)) == BeVal(bytes, 256)
  {
    if bytes != [] {
      var init, x := bytes[..|bytes| - 1], bytes[|bytes| - 1];
      BitsValue(init);
      ByteBitsValue(Bits(init), x, 8);
      assert ByteBits(x)[..8] == ByteBits(x);
      assert Pow(2, 8) == 256;
    }
  }

  /** One round of square-and-multiply moves the exponent from `e` to `2e + bit`. */
  lemma ExpStep(base: int, e: nat, bit: nat, ret: int, sq: int, m: int)
    requires m > 0 && bit <= 1 && Cong(ret, Pow(base, e), m) && Cong(sq, ret * ret, m)
    ensures Cong(if bit == 1 then sq * base else sq, Pow(base, 2 * e + bit), m)
  {
    CongMul(ret, Pow(base, e), ret, Pow(base, e), m);
    PowAdd(base, e, e);
    CongMul(sq, Pow(base, 2 * e), base, base, m);
    assert Pow(base, 2 * e) * base == base * Pow(base, 2 * e);
  }

  /** Modular exponentiation over the bits of the big-endian bytes of `e`. */
  method Exp(base: nat, e: nat, modulus: nat) returns (ret: nat)
    requires modulus > 0
    ensures ret == Rem(Pow(base, e), modulus)
  {
    var bits := Bits(ToBytesBe(e));
    ret := 1;
    for n := 0 to |bits|
      invariant Cong(ret, Pow(base, BitVal(bits[..n])), modulus) && (n > 0 ==> ret < modulus)
    {
      assert bits[..n + 1][..n] == bits[..n];
      var sq := Mul(ret, ret, modulus);
      ExpStep(base, BitVal(bits[..n]), if bits[n] then 1 else 0, ret, sq, modulus);
      ret := if bits[n] then Mul(sq, base, modulus) else sq;
    }
    assert bits[..|bits|] == bits;
    ToBytesBeValue(e);
    BitsValue(ToBytesBe(e));
  }

  // ---- Addition chains ----------------------------------------------------

  datatype Step = Double(index: nat) | Add(left: nat, right: nat)

  /** Step `i` may use the entries `0..i` that exist by then. */
  predicate StepOk(step: Step, i: nat)
  {
    match step
    case Double(index) => index <= i
    case Add(left, right) => left <= i && right <= i
  }

  ghost predicate WellFormed(steps: seq<Step>)
  {
    forall i :: 0 <= i < |steps| ==> StepOk(steps[i], i)
  }

  /** The exponents an addition chain runs through; the first entry is one. */
  ghost function ChainValues(steps: seq<Step>): (v: seq<nat>)
    requires WellFormed(steps)
    ensures |v| == |steps| + 1
  {
    if steps == [] then [1] else
      var n := |steps| - 1;
      assert StepOk(steps[n], n);
      var v := ChainValues(steps[..n]);
      v + [match steps[n] case Double(i) => v[i] + v[i] case Add(l, r) => v[l] + v[r]]
  }

  ghost function ChainLast(steps: seq<Step>): nat
    requires WellFormed(steps)
  {
    ChainValues(steps)[|steps|]
  }

  // ---- The emitted program -------------------------------------------------

  /** `let t{out} = …;` */
  datatype Stmt =
    | LetBase(out: nat)
    | LetSquare(out: nat, arg: nat)
    | LetMul(out: nat, left: nat, right: nat)

  datatype Program = Program(stmts: seq<Stmt>, end: nat)

  type Env = map<nat, int>

  function ExecStmt(s: Stmt, env: Env, base: int, p: int): Option<Env>
    requires p > 0
  {
    match s
    case LetBase(out) => Some(env[out := base])
    case LetSquare(out, arg) =>
      if arg in env then Some(env[out := Mul(env[arg], env[arg], p)]) else None
    case LetMul(out, left, right) =>
      if left in env && right in env then Some(env[out := Mul(env[left], env[right], p)]) else None
  }

  function Exec(stmts: seq<Stmt>, base: int, p: int): Option<Env>
    requires p > 0
  {
    if stmts == [] then Some(map[]) else
      match Exec(stmts[..|stmts| - 1], base, p)
      case None => None
      case Some(env) => ExecStmt(stmts[|stmts| - 1], env, base, p)
  }

  /** The value of the emitted block: run the lets, then read the last temporary. */
  function Run(prog: Program, base: int, p: int): Option<int>
    requires p > 0
  {
    match Exec(prog.stmts, base, p)
    case None => None
    case Some(env) => if prog.end in env then Some(env[prog.end]) else None
  }

  /** Temporary `t{n}` holds the base to the `n`-th chain exponent. */
  ghost predicate Holds(env: Option<Env>, v: seq<nat>, base: int, p: int)
    requires p > 0
  {
    && env.Some?
    && forall n: nat :: n < |v| ==> n in env.value && env.value[n] == Rem(Pow(base, v[n]), p)
  }

  lemma MulOfPowers(base: int, e: nat, f: nat, p: int)
    requires p > 0
    ensures Mul(Rem(Pow(base, e), p), Rem(Pow(base, f), p), p) == Rem(Pow(base, e + f), p)
  {
    RemRange(Pow(base, e), p);
    RemRange(Pow(base, f), p);
    CongMul(Rem(Pow(base, e), p), Pow(base, e), Rem(Pow(base, f), p), Pow(base, f), p);
    PowAdd(base, e, f);
  }

  ghost predicate Computes(stmts: seq<Stmt>, v: seq<nat>)
  {
    forall base, p :: 0 <= base < p ==> Holds(Exec(stmts, base, p), v, base, p)
  }

  /** Appending the statement for one step extends what the program computes. */
  lemma StepComputes(stmts: seq<Stmt>, s: Stmt, v: seq<nat>, l: nat, r: nat)
    requires Computes(stmts, v) && l < |v| && r < |v|
    requires s == LetMul(|v|, l, r) || (s == LetSquare(|v|, l) && l == r)
    ensures Computes(stmts + [s], v + [v[l] + v[r]])
  {
    forall base, p | 0 <= base < p
      ensures Holds(Exec(stmts + [s], base, p), v + [v[l] + v[r]], base, p)
    {
      assert (stmts + [s])[..|stmts|] == stmts;
      assert Holds(Exec(stmts, base, p), v, base, p);
      MulOfPowers(base, v[l], v[r], p);
    }
  }

  lemma BaseComputes()
    ensures Computes([LetBase(0)], [1])
  {
    forall base, p | 0 <= base < p ensures Holds(Exec([LetBase(0)], base, p), [1], base, p) {
      assert [LetBase(0)][..0] == [];
      assert Pow(base, 1) == base;
    }
  }

  function Emit(step: Step, i: nat, tmps: seq<nat>): Stmt
    requires StepOk(step, i) && |tmps| == i + 1
  {
    match step
    case Double(index) => LetSquare(i + 1, tmps[index])
    case Add(left, right) => LetMul(i + 1, tmps[left], tmps[right])
  }

  ghost predicate Names(tmps: seq<nat>)
  {
    forall n :: 0 <= n < |tmps| ==> tmps[n] == n
  }

  lemma ChainStep(steps: seq<Step>, i: nat)
    requires i < |steps| && StepOk(steps[i], i) && WellFormed(steps[..i])
    ensures WellFormed(steps[..i + 1])
    ensures var v := ChainValues(steps[..i]);
      ChainValues(steps[..i + 1])
        == v + [match steps[i] case Double(k) => v[k] + v[k] case Add(l, r) => v[l] + v[r]]
  {
    assert steps[..i + 1][..i] == steps[..i];
  }

  lemma EmitComputes(stmts: seq<Stmt>, steps: seq<Step>, i: nat, tmps: seq<nat>)
    requires i < |steps| && StepOk(steps[i], i) && |tmps| == i + 1 && Names(tmps)
    requires WellFormed(steps[..i]) && Computes(stmts, ChainValues(steps[..i]))
    ensures WellFormed(steps[..i + 1])
    ensures Computes(stmts + [Emit(steps[i], i, tmps)], ChainValues(steps[..i + 1]))
  {
    var v := ChainValues(steps[..i]);
    ChainStep(steps, i);
    match steps[i]
    case Double(index) => StepComputes(stmts, LetSquare(i + 1, index), v, index, index);
    case Add(left, right) => StepComputes(stmts, LetMul(i + 1, left, right), v, left, right);
  }

  ghost predicate Yields(prog: Program, base: int, p: int, e: nat)
    requires p > 0
  {
    Run(prog, base, p) == Some(Rem(Pow(base, e), p))
  }

  /** On every base of every modulus the program computes the base to the power `e`. */
  ghost predicate RaisesTo(prog: Program, e: nat)
  {
    forall base, p :: 0 <= base < p ==> Yields(prog, base, p, e)
  }

  lemma EndComputes(stmts: seq<Stmt>, v: seq<nat>)
    requires |v| > 0 && Computes(stmts, v)
    ensures RaisesTo(Program(stmts, |v| - 1), v[|v| - 1])
  {
    var prog, e := Program(stmts, |v| - 1), v[|v| - 1];
    forall base, p | 0 <= base < p ensures Yields(prog, base, p, e) {
      assert Holds(Exec(stmts, base, p), v, base, p);
    }
  }

  /**
   The generator.  Indexing the temporaries out of range panics; otherwise the
   emitted block evaluates to the base raised to the last entry of the chain,
   for every base and every modulus.
   */
  method Generate(steps: seq<Step>) returns (prog: Option<Program>)
    ensures prog.Some? <==> WellFormed(steps)
    ensures prog.Some? ==> RaisesTo(prog.value, ChainLast(steps))
  {
    var stmts := [LetBase(0)];
    var tmps: seq<nat> := [0];
    BaseComputes();
    for i := 0 to |steps|
      invariant WellFormed(steps[..i]) && |tmps| == i + 1 && Names(tmps)
      invariant Computes(stmts, ChainValues(steps[..i]))
    {
      if !StepOk(steps[i], i) {
        return None;
      }
      EmitComputes(stmts, steps, i, tmps);
      stmts := stmts + [Emit(steps[i], i, tmps)];
      tmps := tmps + [i + 1];
    }
    assert steps[..|steps|] == steps;
    EndComputes(stmts, ChainValues(steps));
    prog := Some(Program(stmts, tmps[|tmps| - 1]));
  }
}
