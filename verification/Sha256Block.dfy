/** The SHA-256 block function: unrolled rounds over a schedule overwritten in place. */
module Sha256Block {
  import opened Arith
  import opened Words

  /** The working registers, and the chaining state between blocks. */
  datatype State = State(a: Word, b: Word, c: Word, d: Word, e: Word, f: Word, g: Word, h: Word)

  /** The constants of section 4.2.2 of FIPS 180-4, eight to a row. */
  function ConstantRow(r: nat): (Word, Word, Word, Word, Word, Word, Word, Word)
    requires r < 8
  {
    match r
    case 0 =>
      (0x428a2f98, 0x71374491, 0xb5c0fbcf, 0xe9b5dba5,
       0x3956c25b, 0x59f111f1, 0x923f82a4, 0xab1c5ed5)
    case 1 =>
      (0xd807aa98, 0x12835b01, 0x243185be, 0x550c7dc3,
       0x72be5d74, 0x80deb1fe, 0x9bdc06a7, 0xc19bf174)
    case 2 =>
      (0xe49b69c1, 0xefbe4786, 0x0fc19dc6, 0x240ca1cc,
       0x2de92c6f, 0x4a7484aa, 0x5cb0a9dc, 0x76f988da)
    case 3 =>
      (0x983e5152, 0xa831c66d, 0xb00327c8, 0xbf597fc7,
       0xc6e00bf3, 0xd5a79147, 0x06ca6351, 0x14292967)
    case 4 =>
      (0x27b70a85, 0x2e1b2138, 0x4d2c6dfc, 0x53380d13,
       0x650a7354, 0x766a0abb, 0x81c2c92e, 0x92722c85)
    case 5 =>
      (0xa2bfe8a1, 0xa81a664b, 0xc24b8b70, 0xc76c51a3,
       0xd192e819, 0xd6990624, 0xf40e3585, 0x106aa070)
    case 6 =>
      (0x19a4c116, 0x1e376c08, 0x2748774c, 0x34b0bcb5,
       0x391c0cb3, 0x4ed8aa4a, 0x5b9cca4f, 0x682e6ff3)
    case _ =>
      (0x748f82ee, 0x78a5636f, 0x84c87814, 0x8cc70208,
       0x90befffa, 0xa4506ceb, 0xbef9a3f7, 0xc67178f2)
  }

  function K(t: nat): Word
    requires t < 64
  {
    var row := ConstantRow(t / 8);
    match t % 8
    case 0 => row.0
    case 1 => row.1
    case 2 => row.2
    case 3 => row.3
    case 4 => row.4
    case 5 => row.5
    case 6 => row.6
    case _ => row.7
  }

  /** The first 64 prime numbers, eight to a row. */
  function PrimeRow(r: nat): (nat, nat, nat, nat, nat, nat, nat, nat)
    requires r < 8
  {
    match r
    case 0 => (2, 3, 5, 7, 11, 13, 17, 19)
    case 1 => (23, 29, 31, 37, 41, 43, 47, 53)
    case 2 => (59, 61, 67, 71, 73, 79, 83, 89)
    case 3 => (97, 101, 103, 107, 109, 113, 127, 131)
    case 4 => (137, 139, 149, 151, 157, 163, 167, 173)
    case 5 => (179, 181, 191, 193, 197, 199, 211, 223)
    case 6 => (227, 229, 233, 239, 241, 251, 257, 263)
    case _ => (269, 271, 277, 281, 283, 293, 307, 311)
  }

  /** The first 32 bits of the fractional part of a cube root: `n` is the root times `2^32`, rounded down. */
  ghost predicate CubeRootBits(k: Word, p: nat) {
    exists n: nat :: IsCubeRoot(n, p) && n % TWO_32 == k
  }

  ghost predicate IsCubeRoot(n: nat, p: nat) {
    n * n * n <= p * (TWO_32 * TWO_64) < (n + 1) * (n + 1) * (n + 1)
  }

  lemma CubeRoot(k: Word, p: nat, n: nat)
    requires n * n * n <= p * (TWO_32 * TWO_64) < (n + 1) * (n + 1) * (n + 1) && n % TWO_32 == k
    ensures CubeRootBits(k, p)
  {
    assert IsCubeRoot(n, p);
  }

  lemma RootRow0()
    ensures var k, p := ConstantRow(0), PrimeRow(0);
            && CubeRootBits(k.0, p.0) && CubeRootBits(k.1, p.1) && CubeRootBits(k.2, p.2) && CubeRootBits(k.3, p.3)
            && CubeRootBits(k.4, p.4) && CubeRootBits(k.5, p.5) && CubeRootBits(k.6, p.6) && CubeRootBits(k.7, p.7)
  {
    CubeRoot(0x428a2f98, 2, 0x1428a2f98);
    CubeRoot(0x71374491, 3, 0x171374491);
    CubeRoot(0xb5c0fbcf, 5, 0x1b5c0fbcf);
    CubeRoot(0xe9b5dba5, 7, 0x1e9b5dba5);
    CubeRoot(0x3956c25b, 11, 0x23956c25b);
    CubeRoot(0x59f111f1, 13, 0x259f111f1);
    CubeRoot(0x923f82a4, 17, 0x2923f82a4);
    CubeRoot(0xab1c5ed5, 19, 0x2ab1c5ed5);
  }

  lemma RootRow1()
    ensures var k, p := ConstantRow(1), PrimeRow(1);
            && CubeRootBits(k.0, p.0) && CubeRootBits(k.1, p.1) && CubeRootBits(k.2, p.2) && CubeRootBits(k.3, p.3)
            && CubeRootBits(k.4, p.4) && CubeRootBits(k.5, p.5) && CubeRootBits(k.6, p.6) && CubeRootBits(k.7, p.7)
  {
    CubeRoot(0xd807aa98, 23, 0x2d807aa98);
    CubeRoot(0x12835b01, 29, 0x312835b01);
    CubeRoot(0x243185be, 31, 0x3243185be);
    CubeRoot(0x550c7dc3, 37, 0x3550c7dc3);
    CubeRoot(0x72be5d74, 41, 0x372be5d74);
    CubeRoot(0x80deb1fe, 43, 0x380deb1fe);
    CubeRoot(0x9bdc06a7, 47, 0x39bdc06a7);
    CubeRoot(0xc19bf174, 53, 0x3c19bf174);
  }

  lemma RootRow2()
    ensures var k, p := ConstantRow(2), PrimeRow(2);
            && CubeRootBits(k.0, p.0) && CubeRootBits(k.1, p.1) && CubeRootBits(k.2, p.2) && CubeRootBits(k.3, p.3)
            && CubeRootBits(k.4, p.4) && CubeRootBits(k.5, p.5) && CubeRootBits(k.6, p.6) && CubeRootBits(k.7, p.7)
  {
    CubeRoot(0xe49b69c1, 59, 0x3e49b69c1);
    CubeRoot(0xefbe4786, 61, 0x3efbe4786);
    CubeRoot(0x0fc19dc6, 67, 0x40fc19dc6);
    CubeRoot(0x240ca1cc, 71, 0x4240ca1cc);
    CubeRoot(0x2de92c6f, 73, 0x42de92c6f);
    CubeRoot(0x4a7484aa, 79, 0x44a7484aa);
    CubeRoot(0x5cb0a9dc, 83, 0x45cb0a9dc);
    CubeRoot(0x76f988da, 89, 0x476f988da);
  }

  lemma RootRow3()
    ensures var k, p := ConstantRow(3), PrimeRow(3);
            && CubeRootBits(k.0, p.0) && CubeRootBits(k.1, p.1) && CubeRootBits(k.2, p.2) && CubeRootBits(k.3, p.3)
            && CubeRootBits(k.4, p.4) && CubeRootBits(k.5, p.5) && CubeRootBits(k.6, p.6) && CubeRootBits(k.7, p.7)
  {
    CubeRoot(0x983e5152, 97, 0x4983e5152);
    CubeRoot(0xa831c66d, 101, 0x4a831c66d);
    CubeRoot(0xb00327c8, 103, 0x4b00327c8);
    CubeRoot(0xbf597fc7, 107, 0x4bf597fc7);
    CubeRoot(0xc6e00bf3, 109, 0x4c6e00bf3);
    CubeRoot(0xd5a79147, 113, 0x4d5a79147);
    CubeRoot(0x06ca6351, 127, 0x506ca6351);
    CubeRoot(0x14292967, 131, 0x514292967);
  }

  lemma RootRow4()
    ensures var k, p := ConstantRow(4), PrimeRow(4);
            && CubeRootBits(k.0, p.0) && CubeRootBits(k.1, p.1) && CubeRootBits(k.2, p.2) && CubeRootBits(k.3, p.3)
            && CubeRootBits(k.4, p.4) && CubeRootBits(k.5, p.5) && CubeRootBits(k.6, p.6) && CubeRootBits(k.7, p.7)
  {
    CubeRoot(0x27b70a85, 137, 0x527b70a85);
    CubeRoot(0x2e1b2138, 139, 0x52e1b2138);
    CubeRoot(0x4d2c6dfc, 149, 0x54d2c6dfc);
    CubeRoot(0x53380d13, 151, 0x553380d13);
    CubeRoot(0x650a7354, 157, 0x5650a7354);
    CubeRoot(0x766a0abb, 163, 0x5766a0abb);
    CubeRoot(0x81c2c92e, 167, 0x581c2c92e);
    CubeRoot(0x92722c85, 173, 0x592722c85);
  }

  lemma RootRow5()
    ensures var k, p := ConstantRow(5), PrimeRow(5);
            && CubeRootBits(k.0, p.0) && CubeRootBits(k.1, p.1) && CubeRootBits(k.2, p.2) && CubeRootBits(k.3, p.3)
            && CubeRootBits(k.4, p.4) && CubeRootBits(k.5, p.5) && CubeRootBits(k.6, p.6) && CubeRootBits(k.7, p.7)
  {
    CubeRoot(0xa2bfe8a1, 179, 0x5a2bfe8a1);
    CubeRoot(0xa81a664b, 181, 0x5a81a664b);
    CubeRoot(0xc24b8b70, 191, 0x5c24b8b70);
    CubeRoot(0xc76c51a3, 193, 0x5c76c51a3);
    CubeRoot(0xd192e819, 197, 0x5d192e819);
    CubeRoot(0xd6990624, 199, 0x5d6990624);
    CubeRoot(0xf40e3585, 211, 0x5f40e3585);
    CubeRoot(0x106aa070, 223, 0x6106aa070);
  }

  lemma RootRow6()
    ensures var k, p := ConstantRow(6), PrimeRow(6);
            && CubeRootBits(k.0, p.0) && CubeRootBits(k.1, p.1) && CubeRootBits(k.2, p.2) && CubeRootBits(k.3, p.3)
            && CubeRootBits(k.4, p.4) && CubeRootBits(k.5, p.5) && CubeRootBits(k.6, p.6) && CubeRootBits(k.7, p.7)
  {
    CubeRoot(0x19a4c116, 227, 0x619a4c116);
    CubeRoot(0x1e376c08, 229, 0x61e376c08);
    CubeRoot(0x2748774c, 233, 0x62748774c);
    CubeRoot(0x34b0bcb5, 239, 0x634b0bcb5);
    CubeRoot(0x391c0cb3, 241, 0x6391c0cb3);
    CubeRoot(0x4ed8aa4a, 251, 0x64ed8aa4a);
    CubeRoot(0x5b9cca4f, 257, 0x65b9cca4f);
    CubeRoot(0x682e6ff3, 263, 0x6682e6ff3);
  }

  lemma RootRow7()
    ensures var k, p := ConstantRow(7), PrimeRow(7);
            && CubeRootBits(k.0, p.0) && CubeRootBits(k.1, p.1) && CubeRootBits(k.2, p.2) && CubeRootBits(k.3, p.3)
            && CubeRootBits(k.4, p.4) && CubeRootBits(k.5, p.5) && CubeRootBits(k.6, p.6) && CubeRootBits(k.7, p.7)
  {
    CubeRoot(0x748f82ee, 269, 0x6748f82ee);
    CubeRoot(0x78a5636f, 271, 0x678a5636f);
    CubeRoot(0x84c87814, 277, 0x684c87814);
    CubeRoot(0x8cc70208, 281, 0x68cc70208);
    CubeRoot(0x90befffa, 283, 0x690befffa);
    CubeRoot(0xa4506ceb, 293, 0x6a4506ceb);
    CubeRoot(0xbef9a3f7, 307, 0x6bef9a3f7);
    CubeRoot(0xc67178f2, 311, 0x6c67178f2);
  }

  /** Every constant is what section 4.2.2 says: the cube roots of the first 64 primes. */
  lemma ConstantsAreCubeRoots(t: nat)
    requires t < 64
    ensures var primes := PrimeRow(t / 8);
            CubeRootBits(K(t), match t % 8
                               case 0 => primes.0
                               case 1 => primes.1
                               case 2 => primes.2
                               case 3 => primes.3
                               case 4 => primes.4
                               case 5 => primes.5
                               case 6 => primes.6
                               case _ => primes.7)
  {
    match t / 8
    case 0 => RootRow0();
    case 1 => RootRow1();
    case 2 => RootRow2();
    case 3 => RootRow3();
    case 4 => RootRow4();
    case 5 => RootRow5();
    case 6 => RootRow6();
    case _ => RootRow7();
  }

  /** The message schedule of section 6.2.2: sixteen words of the block and 48 derived ones. */
  function Schedule(m: seq<Word>, t: nat): Word
    requires |m| == 16
  {
    if t < 16 then m[t]
    else Plus(Plus(Plus(SmallSigma1(Schedule(m, t - 2)), Schedule(m, t - 7)), SmallSigma0(Schedule(m, t - 15))),
              Schedule(m, t - 16))
  }

  /** One round of section 6.2.2. */
  function Step(s: State, k: Word, w: Word): State {
    var t1 := Plus(Plus(Plus(Plus(s.h, BigSigma1(s.e)), Choose(s.e, s.f, s.g)), k), w);
    var t2 := Plus(BigSigma0(s.a), Majority(s.a, s.b, s.c));
    State(Plus(t1, t2), s.a, s.b, s.c, Plus(s.d, t1), s.e, s.f, s.g)
  }

  /** A round function, constants and a schedule; the unrolled rounds do not depend on what they are. */
  datatype Plan = Plan(step: (State, Word, Word) -> State, constant: nat -> Word, schedule: nat -> Word) {
    /** The registers after `t` rounds. */
    function After(s: State, t: nat): State
    {
      if t == 0 then s else step(After(s, t - 1), constant(t - 1), schedule(t - 1))
    }

    /** The plan of section 6.2.2 for the sixteen words of a block. */
    ghost predicate Follows(m: seq<Word>)
      requires |m| == 16
    {
      && (forall s, k, w {:trigger Step(s, k, w)} :: step(s, k, w) == Step(s, k, w))
      && (forall t: nat {:trigger K(t)} :: t < 64 ==> constant(t) == K(t))
      && (forall t: nat {:trigger Schedule(m, t)} :: schedule(t) == Schedule(m, t))
    }
  }

  function Standard(m: seq<Word>): Plan
    requires |m| == 16
  {
    Plan(Step, t => if t < 64 then K(t) else 0, t => Schedule(m, t))
  }

  function Sum(s: State, t: State): State {
    State(Plus(s.a, t.a), Plus(s.b, t.b), Plus(s.c, t.c), Plus(s.d, t.d),
          Plus(s.e, t.e), Plus(s.f, t.f), Plus(s.g, t.g), Plus(s.h, t.h))
  }

  /** The intermediate hash value that section 6.2.2 computes from a state and sixteen words. */
  function NextHash(s: State, m: seq<Word>): State
    requires |m| == 16
  {
    Sum(Standard(m).After(s, 64), s)
  }

  /** The sixteen words in place are the last sixteen of the schedule before round `t`. */
  ghost predicate Window(w: seq<Word>, plan: Plan, t: nat) {
    |w| == 16 && t >= 16 && forall i :: 0 <= i < 16 ==> w[i] == plan.schedule(Latest(t, i))
  }

  /** The last schedule index before `t` that is kept at place `i`. */
  function Latest(t: nat, i: nat): nat
    requires t >= 16 && i < 16
  {
    if i < t % 16 then t - t % 16 + i else t - t % 16 + i - 16
  }

  lemma WindowStarts(m: seq<Word>, plan: Plan)
    requires |m| == 16 && plan.Follows(m)
    ensures Window(m, plan, 16)
    ensures forall i :: 0 <= i < 16 ==> m[i] == plan.schedule(i)
  {
    forall i: nat | i < 16
      ensures m[i] == plan.schedule(i)
    {
      assert Schedule(m, i) == m[i];
    }
  }

  lemma LatestMoves(t: nat, j: nat)
    requires t >= 16 && j < 16
    ensures Latest(t + 1, j) == if j == t % 16 then t else Latest(t, j)
  {
  }

  lemma LatestNeeded(t: nat)
    requires t >= 16
    ensures Latest(t, t % 16) == t - 16 && Latest(t, (t + 14) % 16) == t - 2
    ensures Latest(t, (t + 9) % 16) == t - 7 && Latest(t, (t + 1) % 16) == t - 15
  {
    LatestAhead(t, 0);
    LatestAhead(t, 1);
    LatestAhead(t, 9);
    LatestAhead(t, 14);
  }

  lemma LatestAhead(t: nat, k: nat)
    requires t >= 16 && k < 16
    ensures Latest(t, (t + k) % 16) == t - 16 + k
  {
    var r := t % 16;
    assert (t + k) % 16 == if r + k < 16 then r + k else r + k - 16;
  }

  /** Overwriting one word moves the window on. */
  lemma WindowMoves(w: seq<Word>, plan: Plan, t: nat, i: nat, v: Word)
    requires Window(w, plan, t) && i == t % 16 && v == plan.schedule(t)
    ensures Window(w[i := v], plan, t + 1)
  {
    var u := w[i := v];
    forall j | 0 <= j < 16
      ensures u[j] == plan.schedule(Latest(t + 1, j))
    {
      LatestMoves(t, j);
    }
  }

  /** The words at the four places make up the next word of the schedule. */
  lemma NextWord(w: seq<Word>, m: seq<Word>, plan: Plan, t: nat, i: nat, i1: nat, i2: nat, i3: nat)
    requires |m| == 16 && plan.Follows(m) && Window(w, plan, t)
    requires i == t % 16 && i1 == (t + 14) % 16 && i2 == (t + 9) % 16 && i3 == (t + 1) % 16
    ensures Plus(Plus(Plus(w[i], SmallSigma1(w[i1])), w[i2]), SmallSigma0(w[i3])) == plan.schedule(t)
  {
    LatestNeeded(t);
    assert w[i] == Schedule(m, t - 16) && w[i1] == Schedule(m, t - 2);
    assert w[i2] == Schedule(m, t - 7) && w[i3] == Schedule(m, t - 15);
    assert plan.schedule(t) == Schedule(m, t);
    PlusReorder(SmallSigma1(w[i1]), w[i2], SmallSigma0(w[i3]), w[i]);
  }

  /** One round as the program writes it, in registers whose roles have rotated. */
  method Round(a: Word, b: Word, c: Word, d: Word, e: Word, f: Word, g: Word, h: Word, k: Word, w: Word,
               ghost s: State, ghost m: seq<Word>, ghost plan: Plan, ghost t: nat)
    returns (d': Word, h': Word)
    requires |m| == 16 && plan.Follows(m) && t < 64 && k == K(t) && w == plan.schedule(t)
    requires State(a, b, c, d, e, f, g, h) == plan.After(s, t)
    ensures State(h', a, b, c, d', e, f, g) == plan.After(s, t + 1)
  {
    var t1 := Plus(Plus(Plus(Plus(h, Sigma1(e)), Ch(e, f, g)), k), w);
    var t2 := Plus(Sigma0(a), Maj(a, b, c));
    d' := Plus(d, t1);
    h' := Plus(t1, t2);
    assert State(h', a, b, c, d', e, f, g) == Step(State(a, b, c, d, e, f, g, h), k, w);
  }

  /** A later round first replaces the oldest word of the schedule. */
  method LaterRound(a: Word, b: Word, c: Word, d: Word, e: Word, f: Word, g: Word, h: Word, k: Word,
                    w: array<Word>, i: nat, i1: nat, i2: nat, i3: nat,
                    ghost s: State, ghost m: seq<Word>, ghost plan: Plan, ghost t: nat)
    returns (d': Word, h': Word)
    requires |m| == 16 && plan.Follows(m) && t < 64 && k == K(t) && w.Length == 16 && Window(w[..], plan, t)
    requires i == t % 16 && i1 == (t + 14) % 16 && i2 == (t + 9) % 16 && i3 == (t + 1) % 16
    requires State(a, b, c, d, e, f, g, h) == plan.After(s, t)
    modifies w
    ensures Window(w[..], plan, t + 1)
    ensures State(h', a, b, c, d', e, f, g) == plan.After(s, t + 1)
  {
    NextWord(w[..], m, plan, t, i, i1, i2, i3);
    WindowMoves(w[..], plan, t, i, plan.schedule(t));
    w[i] := Plus(Plus(Plus(w[i], LowerSigma1(w[i1])), w[i2]), LowerSigma0(w[i3]));
    d', h' := Round(a, b, c, d, e, f, g, h, k, w[i], s, m, plan, t);
  }

  /** Rounds 0 to 3. */
  method Rounds0(a0: Word, b0: Word, c0: Word, d0: Word, e0: Word, f0: Word, g0: Word, h0: Word,
                   w: array<Word>, ghost s: State, ghost m: seq<Word>, ghost plan: Plan)
    returns (a: Word, b: Word, c: Word, d: Word, e: Word, f: Word, g: Word, h: Word)
    requires w.Length == 16 && |m| == 16 && plan.Follows(m)
    requires forall i :: 0 <= i < 16 ==> w[i] == plan.schedule(i)
    requires State(a0, b0, c0, d0, e0, f0, g0, h0) == plan.After(s, 0)
    ensures State(e, f, g, h, a, b, c, d) == plan.After(s, 4)
  {
    a, b, c, d, e, f, g, h := a0, b0, c0, d0, e0, f0, g0, h0;
    d, h := Round(a, b, c, d, e, f, g, h, 0x428a2f98, w[0], s, m, plan, 0);
    c, g := Round(h, a, b, c, d, e, f, g, 0x71374491, w[1], s, m, plan, 1);
    b, f := Round(g, h, a, b, c, d, e, f, 0xb5c0fbcf, w[2], s, m, plan, 2);
    a, e := Round(f, g, h, a, b, c, d, e, 0xe9b5dba5, w[3], s, m, plan, 3);
  }

  /** Rounds 4 to 7. */
  method Rounds4(a0: Word, b0: Word, c0: Word, d0: Word, e0: Word, f0: Word, g0: Word, h0: Word,
                   w: array<Word>, ghost s: State, ghost m: seq<Word>, ghost plan: Plan)
    returns (a: Word, b: Word, c: Word, d: Word, e: Word, f: Word, g: Word, h: Word)
    requires w.Length == 16 && |m| == 16 && plan.Follows(m)
    requires forall i :: 0 <= i < 16 ==> w[i] == plan.schedule(i)
    requires State(e0, f0, g0, h0, a0, b0, c0, d0) == plan.After(s, 4)
    ensures State(a, b, c, d, e, f, g, h) == plan.After(s, 8)
  {
    a, b, c, d, e, f, g, h := a0, b0, c0, d0, e0, f0, g0, h0;
    h, d := Round(e, f, g, h, a, b, c, d, 0x3956c25b, w[4], s, m, plan, 4);
    g, c := Round(d, e, f, g, h, a, b, c, 0x59f111f1, w[5], s, m, plan, 5);
    f, b := Round(c, d, e, f, g, h, a, b, 0x923f82a4, w[6], s, m, plan, 6);
    e, a := Round(b, c, d, e, f, g, h, a, 0xab1c5ed5, w[7], s, m, plan, 7);
  }

  /** Rounds 8 to 11. */
  method Rounds8(a0: Word, b0: Word, c0: Word, d0: Word, e0: Word, f0: Word, g0: Word, h0: Word,
                   w: array<Word>, ghost s: State, ghost m: seq<Word>, ghost plan: Plan)
    returns (a: Word, b: Word, c: Word, d: Word, e: Word, f: Word, g: Word, h: Word)
    requires w.Length == 16 && |m| == 16 && plan.Follows(m)
    requires forall i :: 0 <= i < 16 ==> w[i] == plan.schedule(i)
    requires State(a0, b0, c0, d0, e0, f0, g0, h0) == plan.After(s, 8)
    ensures State(e, f, g, h, a, b, c, d) == plan.After(s, 12)
  {
    a, b, c, d, e, f, g, h := a0, b0, c0, d0, e0, f0, g0, h0;
    d, h := Round(a, b, c, d, e, f, g, h, 0xd807aa98, w[8], s, m, plan, 8);
    c, g := Round(h, a, b, c, d, e, f, g, 0x12835b01, w[9], s, m, plan, 9);
    b, f := Round(g, h, a, b, c, d, e, f, 0x243185be, w[10], s, m, plan, 10);
    a, e := Round(f, g, h, a, b, c, d, e, 0x550c7dc3, w[11], s, m, plan, 11);
  }

  /** Rounds 12 to 15. */
  method Rounds12(a0: Word, b0: Word, c0: Word, d0: Word, e0: Word, f0: Word, g0: Word, h0: Word,
                   w: array<Word>, ghost s: State, ghost m: seq<Word>, ghost plan: Plan)
    returns (a: Word, b: Word, c: Word, d: Word, e: Word, f: Word, g: Word, h: Word)
    requires w.Length == 16 && |m| == 16 && plan.Follows(m)
    requires forall i :: 0 <= i < 16 ==> w[i] == plan.schedule(i)
    requires State(e0, f0, g0, h0, a0, b0, c0, d0) == plan.After(s, 12)
    ensures State(a, b, c, d, e, f, g, h) == plan.After(s, 16)
  {
    a, b, c, d, e, f, g, h := a0, b0, c0, d0, e0, f0, g0, h0;
    h, d := Round(e, f, g, h, a, b, c, d, 0x72be5d74, w[12], s, m, plan, 12);
    g, c := Round(d, e, f, g, h, a, b, c, 0x80deb1fe, w[13], s, m, plan, 13);
    f, b := Round(c, d, e, f, g, h, a, b, 0x9bdc06a7, w[14], s, m, plan, 14);
    e, a := Round(b, c, d, e, f, g, h, a, 0xc19bf174, w[15], s, m, plan, 15);
  }

  /** Rounds 16 to 19. */
  method Rounds16(a0: Word, b0: Word, c0: Word, d0: Word, e0: Word, f0: Word, g0: Word, h0: Word,
                   w: array<Word>, ghost s: State, ghost m: seq<Word>, ghost plan: Plan)
    returns (a: Word, b: Word, c: Word, d: Word, e: Word, f: Word, g: Word, h: Word)
    requires w.Length == 16 && |m| == 16 && plan.Follows(m) && Window(w[..], plan, 16)
    requires State(a0, b0, c0, d0, e0, f0, g0, h0) == plan.After(s, 16)
    modifies w
    ensures Window(w[..], plan, 20)
    ensures State(e, f, g, h, a, b, c, d) == plan.After(s, 20)
  {
    a, b, c, d, e, f, g, h := a0, b0, c0, d0, e0, f0, g0, h0;
    d, h := LaterRound(a, b, c, d, e, f, g, h, 0xe49b69c1, w, 0, 14, 9, 1, s, m, plan, 16);
    c, g := LaterRound(h, a, b, c, d, e, f, g, 0xefbe4786, w, 1, 15, 10, 2, s, m, plan, 17);
    b, f := LaterRound(g, h, a, b, c, d, e, f, 0x0fc19dc6, w, 2, 0, 11, 3, s, m, plan, 18);
    a, e := LaterRound(f, g, h, a, b, c, d, e, 0x240ca1cc, w, 3, 1, 12, 4, s, m, plan, 19);
  }

  /** Rounds 20 to 23. */
  method Rounds20(a0: Word, b0: Word, c0: Word, d0: Word, e0: Word, f0: Word, g0: Word, h0: Word,
                   w: array<Word>, ghost s: State, ghost m: seq<Word>, ghost plan: Plan)
    returns (a: Word, b: Word, c: Word, d: Word, e: Word, f: Word, g: Word, h: Word)
    requires w.Length == 16 && |m| == 16 && plan.Follows(m) && Window(w[..], plan, 20)
    requires State(e0, f0, g0, h0, a0, b0, c0, d0) == plan.After(s, 20)
    modifies w
    ensures Window(w[..], plan, 24)
    ensures State(a, b, c, d, e, f, g, h) == plan.After(s, 24)
  {
    a, b, c, d, e, f, g, h := a0, b0, c0, d0, e0, f0, g0, h0;
    h, d := LaterRound(e, f, g, h, a, b, c, d, 0x2de92c6f, w, 4, 2, 13, 5, s, m, plan, 20);
    g, c := LaterRound(d, e, f, g, h, a, b, c, 0x4a7484aa, w, 5, 3, 14, 6, s, m, plan, 21);
    f, b := LaterRound(c, d, e, f, g, h, a, b, 0x5cb0a9dc, w, 6, 4, 15, 7, s, m, plan, 22);
    e, a := LaterRound(b, c, d, e, f, g, h, a, 0x76f988da, w, 7, 5, 0, 8, s, m, plan, 23);
  }

  /** Rounds 24 to 27. */
  method Rounds24(a0: Word, b0: Word, c0: Word, d0: Word, e0: Word, f0: Word, g0: Word, h0: Word,
                   w: array<Word>, ghost s: State, ghost m: seq<Word>, ghost plan: Plan)
    returns (a: Word, b: Word, c: Word, d: Word, e: Word, f: Word, g: Word, h: Word)
    requires w.Length == 16 && |m| == 16 && plan.Follows(m) && Window(w[..], plan, 24)
    requires State(a0, b0, c0, d0, e0, f0, g0, h0) == plan.After(s, 24)
    modifies w
    ensures Window(w[..], plan, 28)
    ensures State(e, f, g, h, a, b, c, d) == plan.After(s, 28)
  {
    a, b, c, d, e, f, g, h := a0, b0, c0, d0, e0, f0, g0, h0;
    d, h := LaterRound(a, b, c, d, e, f, g, h, 0x983e5152, w, 8, 6, 1, 9, s, m, plan, 24);
    c, g := LaterRound(h, a, b, c, d, e, f, g, 0xa831c66d, w, 9, 7, 2, 10, s, m, plan, 25);
    b, f := LaterRound(g, h, a, b, c, d, e, f, 0xb00327c8, w, 10, 8, 3, 11, s, m, plan, 26);
    a, e := LaterRound(f, g, h, a, b, c, d, e, 0xbf597fc7, w, 11, 9, 4, 12, s, m, plan, 27);
  }

  /** Rounds 28 to 31. */
  method Rounds28(a0: Word, b0: Word, c0: Word, d0: Word, e0: Word, f0: Word, g0: Word, h0: Word,
                   w: array<Word>, ghost s: State, ghost m: seq<Word>, ghost plan: Plan)
    returns (a: Word, b: Word, c: Word, d: Word, e: Word, f: Word, g: Word, h: Word)
    requires w.Length == 16 && |m| == 16 && plan.Follows(m) && Window(w[..], plan, 28)
    requires State(e0, f0, g0, h0, a0, b0, c0, d0) == plan.After(s, 28)
    modifies w
    ensures Window(w[..], plan, 32)
    ensures State(a, b, c, d, e, f, g, h) == plan.After(s, 32)
  {
    a, b, c, d, e, f, g, h := a0, b0, c0, d0, e0, f0, g0, h0;
    h, d := LaterRound(e, f, g, h, a, b, c, d, 0xc6e00bf3, w, 12, 10, 5, 13, s, m, plan, 28);
    g, c := LaterRound(d, e, f, g, h, a, b, c, 0xd5a79147, w, 13, 11, 6, 14, s, m, plan, 29);
    f, b := LaterRound(c, d, e, f, g, h, a, b, 0x06ca6351, w, 14, 12, 7, 15, s, m, plan, 30);
    e, a := LaterRound(b, c, d, e, f, g, h, a, 0x14292967, w, 15, 13, 8, 0, s, m, plan, 31);
  }

  /** Rounds 32 to 35. */
  method Rounds32(a0: Word, b0: Word, c0: Word, d0: Word, e0: Word, f0: Word, g0: Word, h0: Word,
                   w: array<Word>, ghost s: State, ghost m: seq<Word>, ghost plan: Plan)
    returns (a: Word, b: Word, c: Word, d: Word, e: Word, f: Word, g: Word, h: Word)
    requires w.Length == 16 && |m| == 16 && plan.Follows(m) && Window(w[..], plan, 32)
    requires State(a0, b0, c0, d0, e0, f0, g0, h0) == plan.After(s, 32)
    modifies w
    ensures Window(w[..], plan, 36)
    ensures State(e, f, g, h, a, b, c, d) == plan.After(s, 36)
  {
    a, b, c, d, e, f, g, h := a0, b0, c0, d0, e0, f0, g0, h0;
    d, h := LaterRound(a, b, c, d, e, f, g, h, 0x27b70a85, w, 0, 14, 9, 1, s, m, plan, 32);
    c, g := LaterRound(h, a, b, c, d, e, f, g, 0x2e1b2138, w, 1, 15, 10, 2, s, m, plan, 33);
    b, f := LaterRound(g, h, a, b, c, d, e, f, 0x4d2c6dfc, w, 2, 0, 11, 3, s, m, plan, 34);
    a, e := LaterRound(f, g, h, a, b, c, d, e, 0x53380d13, w, 3, 1, 12, 4, s, m, plan, 35);
  }

  /** Rounds 36 to 39. */
  method Rounds36(a0: Word, b0: Word, c0: Word, d0: Word, e0: Word, f0: Word, g0: Word, h0: Word,
                   w: array<Word>, ghost s: State, ghost m: seq<Word>, ghost plan: Plan)
    returns (a: Word, b: Word, c: Word, d: Word, e: Word, f: Word, g: Word, h: Word)
    requires w.Length == 16 && |m| == 16 && plan.Follows(m) && Window(w[..], plan, 36)
    requires State(e0, f0, g0, h0, a0, b0, c0, d0) == plan.After(s, 36)
    modifies w
    ensures Window(w[..], plan, 40)
    ensures State(a, b, c, d, e, f, g, h) == plan.After(s, 40)
  {
    a, b, c, d, e, f, g, h := a0, b0, c0, d0, e0, f0, g0, h0;
    h, d := LaterRound(e, f, g, h, a, b, c, d, 0x650a7354, w, 4, 2, 13, 5, s, m, plan, 36);
    g, c := LaterRound(d, e, f, g, h, a, b, c, 0x766a0abb, w, 5, 3, 14, 6, s, m, plan, 37);
    f, b := LaterRound(c, d, e, f, g, h, a, b, 0x81c2c92e, w, 6, 4, 15, 7, s, m, plan, 38);
    e, a := LaterRound(b, c, d, e, f, g, h, a, 0x92722c85, w, 7, 5, 0, 8, s, m, plan, 39);
  }

  /** Rounds 40 to 43. */
  method Rounds40(a0: Word, b0: Word, c0: Word, d0: Word, e0: Word, f0: Word, g0: Word, h0: Word,
                   w: array<Word>, ghost s: State, ghost m: seq<Word>, ghost plan: Plan)
    returns (a: Word, b: Word, c: Word, d: Word, e: Word, f: Word, g: Word, h: Word)
    requires w.Length == 16 && |m| == 16 && plan.Follows(m) && Window(w[..], plan, 40)
    requires State(a0, b0, c0, d0, e0, f0, g0, h0) == plan.After(s, 40)
    modifies w
    ensures Window(w[..], plan, 44)
    ensures State(e, f, g, h, a, b, c, d) == plan.After(s, 44)
  {
    a, b, c, d, e, f, g, h := a0, b0, c0, d0, e0, f0, g0, h0;
    d, h := LaterRound(a, b, c, d, e, f, g, h, 0xa2bfe8a1, w, 8, 6, 1, 9, s, m, plan, 40);
    c, g := LaterRound(h, a, b, c, d, e, f, g, 0xa81a664b, w, 9, 7, 2, 10, s, m, plan, 41);
    b, f := LaterRound(g, h, a, b, c, d, e, f, 0xc24b8b70, w, 10, 8, 3, 11, s, m, plan, 42);
    a, e := LaterRound(f, g, h, a, b, c, d, e, 0xc76c51a3, w, 11, 9, 4, 12, s, m, plan, 43);
  }

  /** Rounds 44 to 47. */
  method Rounds44(a0: Word, b0: Word, c0: Word, d0: Word, e0: Word, f0: Word, g0: Word, h0: Word,
                   w: array<Word>, ghost s: State, ghost m: seq<Word>, ghost plan: Plan)
    returns (a: Word, b: Word, c: Word, d: Word, e: Word, f: Word, g: Word, h: Word)
    requires w.Length == 16 && |m| == 16 && plan.Follows(m) && Window(w[..], plan, 44)
    requires State(e0, f0, g0, h0, a0, b0, c0, d0) == plan.After(s, 44)
    modifies w
    ensures Window(w[..], plan, 48)
    ensures State(a, b, c, d, e, f, g, h) == plan.After(s, 48)
  {
    a, b, c, d, e, f, g, h := a0, b0, c0, d0, e0, f0, g0, h0;
    h, d := LaterRound(e, f, g, h, a, b, c, d, 0xd192e819, w, 12, 10, 5, 13, s, m, plan, 44);
    g, c := LaterRound(d, e, f, g, h, a, b, c, 0xd6990624, w, 13, 11, 6, 14, s, m, plan, 45);
    f, b := LaterRound(c, d, e, f, g, h, a, b, 0xf40e3585, w, 14, 12, 7, 15, s, m, plan, 46);
    e, a := LaterRound(b, c, d, e, f, g, h, a, 0x106aa070, w, 15, 13, 8, 0, s, m, plan, 47);
  }

  /** Rounds 48 to 51. */
  method Rounds48(a0: Word, b0: Word, c0: Word, d0: Word, e0: Word, f0: Word, g0: Word, h0: Word,
                   w: array<Word>, ghost s: State, ghost m: seq<Word>, ghost plan: Plan)
    returns (a: Word, b: Word, c: Word, d: Word, e: Word, f: Word, g: Word, h: Word)
    requires w.Length == 16 && |m| == 16 && plan.Follows(m) && Window(w[..], plan, 48)
    requires State(a0, b0, c0, d0, e0, f0, g0, h0) == plan.After(s, 48)
    modifies w
    ensures Window(w[..], plan, 52)
    ensures State(e, f, g, h, a, b, c, d) == plan.After(s, 52)
  {
    a, b, c, d, e, f, g, h := a0, b0, c0, d0, e0, f0, g0, h0;
    d, h := LaterRound(a, b, c, d, e, f, g, h, 0x19a4c116, w, 0, 14, 9, 1, s, m, plan, 48);
    c, g := LaterRound(h, a, b, c, d, e, f, g, 0x1e376c08, w, 1, 15, 10, 2, s, m, plan, 49);
    b, f := LaterRound(g, h, a, b, c, d, e, f, 0x2748774c, w, 2, 0, 11, 3, s, m, plan, 50);
    a, e := LaterRound(f, g, h, a, b, c, d, e, 0x34b0bcb5, w, 3, 1, 12, 4, s, m, plan, 51);
  }

  /** Rounds 52 to 55. */
  method Rounds52(a0: Word, b0: Word, c0: Word, d0: Word, e0: Word, f0: Word, g0: Word, h0: Word,
                   w: array<Word>, ghost s: State, ghost m: seq<Word>, ghost plan: Plan)
    returns (a: Word, b: Word, c: Word, d: Word, e: Word, f: Word, g: Word, h: Word)
    requires w.Length == 16 && |m| == 16 && plan.Follows(m) && Window(w[..], plan, 52)
    requires State(e0, f0, g0, h0, a0, b0, c0, d0) == plan.After(s, 52)
    modifies w
    ensures Window(w[..], plan, 56)
    ensures State(a, b, c, d, e, f, g, h) == plan.After(s, 56)
  {
    a, b, c, d, e, f, g, h := a0, b0, c0, d0, e0, f0, g0, h0;
    h, d := LaterRound(e, f, g, h, a, b, c, d, 0x391c0cb3, w, 4, 2, 13, 5, s, m, plan, 52);
    g, c := LaterRound(d, e, f, g, h, a, b, c, 0x4ed8aa4a, w, 5, 3, 14, 6, s, m, plan, 53);
    f, b := LaterRound(c, d, e, f, g, h, a, b, 0x5b9cca4f, w, 6, 4, 15, 7, s, m, plan, 54);
    e, a := LaterRound(b, c, d, e, f, g, h, a, 0x682e6ff3, w, 7, 5, 0, 8, s, m, plan, 55);
  }

  /** Rounds 56 to 59. */
  method Rounds56(a0: Word, b0: Word, c0: Word, d0: Word, e0: Word, f0: Word, g0: Word, h0: Word,
                   w: array<Word>, ghost s: State, ghost m: seq<Word>, ghost plan: Plan)
    returns (a: Word, b: Word, c: Word, d: Word, e: Word, f: Word, g: Word, h: Word)
    requires w.Length == 16 && |m| == 16 && plan.Follows(m) && Window(w[..], plan, 56)
    requires State(a0, b0, c0, d0, e0, f0, g0, h0) == plan.After(s, 56)
    modifies w
    ensures Window(w[..], plan, 60)
    ensures State(e, f, g, h, a, b, c, d) == plan.After(s, 60)
  {
    a, b, c, d, e, f, g, h := a0, b0, c0, d0, e0, f0, g0, h0;
    d, h := LaterRound(a, b, c, d, e, f, g, h, 0x748f82ee, w, 8, 6, 1, 9, s, m, plan, 56);
    c, g := LaterRound(h, a, b, c, d, e, f, g, 0x78a5636f, w, 9, 7, 2, 10, s, m, plan, 57);
    b, f := LaterRound(g, h, a, b, c, d, e, f, 0x84c87814, w, 10, 8, 3, 11, s, m, plan, 58);
    a, e := LaterRound(f, g, h, a, b, c, d, e, 0x8cc70208, w, 11, 9, 4, 12, s, m, plan, 59);
  }

  /** Rounds 60 to 63. */
  method Rounds60(a0: Word, b0: Word, c0: Word, d0: Word, e0: Word, f0: Word, g0: Word, h0: Word,
                   w: array<Word>, ghost s: State, ghost m: seq<Word>, ghost plan: Plan)
    returns (a: Word, b: Word, c: Word, d: Word, e: Word, f: Word, g: Word, h: Word)
    requires w.Length == 16 && |m| == 16 && plan.Follows(m) && Window(w[..], plan, 60)
    requires State(e0, f0, g0, h0, a0, b0, c0, d0) == plan.After(s, 60)
    modifies w
    ensures Window(w[..], plan, 64)
    ensures State(a, b, c, d, e, f, g, h) == plan.After(s, 64)
  {
    a, b, c, d, e, f, g, h := a0, b0, c0, d0, e0, f0, g0, h0;
    h, d := LaterRound(e, f, g, h, a, b, c, d, 0x90befffa, w, 12, 10, 5, 13, s, m, plan, 60);
    g, c := LaterRound(d, e, f, g, h, a, b, c, 0xa4506ceb, w, 13, 11, 6, 14, s, m, plan, 61);
    f, b := LaterRound(c, d, e, f, g, h, a, b, 0xbef9a3f7, w, 14, 12, 7, 15, s, m, plan, 62);
    e, a := LaterRound(b, c, d, e, f, g, h, a, 0xc67178f2, w, 15, 13, 8, 0, s, m, plan, 63);
  }

  /** The first half of the rounds, from the state a block starts with. */
  method EarlyRounds(s: State, w: array<Word>, ghost m: seq<Word>, ghost plan: Plan) returns (r: State)
    requires w.Length == 16 && |m| == 16 && plan.Follows(m) && w[..] == m
    modifies w
    ensures Window(w[..], plan, 32) && r == plan.After(s, 32)
  {
    WindowStarts(m, plan);
    var a, b, c, d, e, f, g, h := s.a, s.b, s.c, s.d, s.e, s.f, s.g, s.h;
    a, b, c, d, e, f, g, h := Rounds0(a, b, c, d, e, f, g, h, w, s, m, plan);
    a, b, c, d, e, f, g, h := Rounds4(a, b, c, d, e, f, g, h, w, s, m, plan);
    a, b, c, d, e, f, g, h := Rounds8(a, b, c, d, e, f, g, h, w, s, m, plan);
    a, b, c, d, e, f, g, h := Rounds12(a, b, c, d, e, f, g, h, w, s, m, plan);
    a, b, c, d, e, f, g, h := Rounds16(a, b, c, d, e, f, g, h, w, s, m, plan);
    a, b, c, d, e, f, g, h := Rounds20(a, b, c, d, e, f, g, h, w, s, m, plan);
    a, b, c, d, e, f, g, h := Rounds24(a, b, c, d, e, f, g, h, w, s, m, plan);
    a, b, c, d, e, f, g, h := Rounds28(a, b, c, d, e, f, g, h, w, s, m, plan);
    r := State(a, b, c, d, e, f, g, h);
  }

  /** The second half of the rounds. */
  method LateRounds(r0: State, w: array<Word>, ghost s: State, ghost m: seq<Word>, ghost plan: Plan) returns (r: State)
    requires w.Length == 16 && |m| == 16 && plan.Follows(m) && Window(w[..], plan, 32) && r0 == plan.After(s, 32)
    modifies w
    ensures r == plan.After(s, 64)
  {
    var a, b, c, d, e, f, g, h := r0.a, r0.b, r0.c, r0.d, r0.e, r0.f, r0.g, r0.h;
    a, b, c, d, e, f, g, h := Rounds32(a, b, c, d, e, f, g, h, w, s, m, plan);
    a, b, c, d, e, f, g, h := Rounds36(a, b, c, d, e, f, g, h, w, s, m, plan);
    a, b, c, d, e, f, g, h := Rounds40(a, b, c, d, e, f, g, h, w, s, m, plan);
    a, b, c, d, e, f, g, h := Rounds44(a, b, c, d, e, f, g, h, w, s, m, plan);
    a, b, c, d, e, f, g, h := Rounds48(a, b, c, d, e, f, g, h, w, s, m, plan);
    a, b, c, d, e, f, g, h := Rounds52(a, b, c, d, e, f, g, h, w, s, m, plan);
    a, b, c, d, e, f, g, h := Rounds56(a, b, c, d, e, f, g, h, w, s, m, plan);
    a, b, c, d, e, f, g, h := Rounds60(a, b, c, d, e, f, g, h, w, s, m, plan);
    r := State(a, b, c, d, e, f, g, h);
  }

  /** The block function on sixteen words: the unrolled rounds compute the hash of the standard. */
  method ProcessWords(s: State, w: array<Word>) returns (r: State)
    requires w.Length == 16
    modifies w
    ensures r == NextHash(s, old(w[..]))
  {
    ghost var m := w[..];
    StandardFollows(m);
    var middle := EarlyRounds(s, w, m, Standard(m));
    var last := LateRounds(middle, w, s, m, Standard(m));
    r := State(Plus(s.a, last.a), Plus(s.b, last.b), Plus(s.c, last.c), Plus(s.d, last.d),
               Plus(s.e, last.e), Plus(s.f, last.f), Plus(s.g, last.g), Plus(s.h, last.h));
  }

  lemma StandardFollows(m: seq<Word>)
    requires |m| == 16
    ensures Standard(m).Follows(m)
  {
  }
}
