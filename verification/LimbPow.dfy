/** The emitted power programs on the limbs that they run on. */
module LimbPow {
  import opened Arith
  import opened Words
  import opened Montgomery
  import opened FieldElement
  import opened PowFixed

  type LimbEnv = map<nat, seq<Word>>

  /** Every temporary is a reduced element that stands for the residue of the same name. */
  ghost predicate StandsFor(limbs: LimbEnv, env: Env, md: Modulus)
    requires Montgomery.Valid(md)
  {
    limbs.Keys == env.Keys && forall n :: n in limbs ==> Reduced(limbs[n], md) && Decode(limbs[n], md) == env[n]
  }

  lemma {:induction false} ExecPrefix(stmts: seq<Stmt>, n: nat, base: int, p: int)
    requires p > 0 && n <= |stmts| && Exec(stmts, base, p).Some?
    ensures Exec(stmts[..n], base, p).Some?
    decreases |stmts| - n
  {
    if n == |stmts| {
      assert stmts[..n] == stmts;
    } else {
      ExecPrefix(stmts, n + 1, base, p);
      assert stmts[..n + 1][..n] == stmts[..n];
    }
  }

  method RunStmt(s: Stmt, limbs: LimbEnv, base: seq<Word>, md: Modulus, ghost env: Env) returns (limbs': LimbEnv)
    requires Montgomery.Valid(md) && Reduced(base, md) && StandsFor(limbs, env, md)
    requires ExecStmt(s, env, Decode(base, md), M(md)).Some?
    ensures StandsFor(limbs', ExecStmt(s, env, Decode(base, md), M(md)).value, md)
  {
    match s {
      case LetBase(out) =>
        limbs' := limbs[out := base];
      case LetSquare(out, arg) =>
        var sq := FieldElement.Square(limbs[arg], md);
        limbs' := limbs[out := sq];
      case LetMul(out, left, right) =>
        var product := Times(limbs[left], limbs[right], md);
        limbs' := limbs[out := product];
    }
  }

  /** A program that raises residues to the power `e` raises elements to the power `e`. */
  method RunLimbs(prog: Program, base: seq<Word>, md: Modulus, ghost e: nat) returns (x: seq<Word>)
    requires Montgomery.Valid(md) && Reduced(base, md) && RaisesTo(prog, e)
    ensures Reduced(x, md) && Decode(x, md) == Rem(Pow(Decode(base, md), e), M(md))
  {
    ghost var b, p := Decode(base, md), M(md);
    assert Yields(prog, b, p, e);
    var limbs: LimbEnv := map[];
    assert prog.stmts[..|prog.stmts|] == prog.stmts;
    for n := 0 to |prog.stmts|
      invariant Exec(prog.stmts[..n], b, p).Some? && StandsFor(limbs, Exec(prog.stmts[..n], b, p).value, md)
    {
      ExecPrefix(prog.stmts, n + 1, b, p);
      assert prog.stmts[..n + 1][..n] == prog.stmts[..n];
      limbs := RunStmt(prog.stmts[n], limbs, base, md, Exec(prog.stmts[..n], b, p).value);
    }
    x := limbs[prog.end];
  }

  /** The power with the exponent that a chain ends in. */
  method PowLimbs(base: seq<Word>, chain: seq<Step>, md: Modulus) returns (x: seq<Word>)
    requires Montgomery.Valid(md) && Reduced(base, md) && WellFormed(chain)
    ensures Reduced(x, md) && Decode(x, md) == Rem(Pow(Decode(base, md), ChainLast(chain)), M(md))
  {
    var prog := Generate(chain);
    x := RunLimbs(prog.value, base, md, ChainLast(chain));
  }
}
