/** The two-input Poseidon hash of contracts/shielded_pool/src/poseidon/mod.rs (and its twin in
    contracts/poseidon_probe/src/lib.rs), for any tables of reduced Montgomery constants. */
module Poseidon {
  import opened ScalarField
  import opened Limbs
  import opened Bytes
  import opened FieldBytes

  const FULL_ROUNDS := 8
  const PARTIAL_ROUNDS := 57
  const ROUNDS := FULL_ROUNDS + PARTIAL_ROUNDS

  // ---- The permutation over Z_r ----

  type Lanes = s: seq<Fe> | |s| == 3 witness [0, 0, 0]

  /** Round constants, row-major, and the mixing matrix, as field elements. */
  datatype Parameters = Parameters(c: seq<Fe>, m: seq<Lanes>)

  ghost predicate WellFormed(p: Parameters) { |p.c| == 3 * ROUNDS && |p.m| == 3 }

  function Dot(row: Lanes, s: Lanes): Fe {
    Add(Add(Mul(row[0], s[0]), Mul(row[1], s[1])), Mul(row[2], s[2]))
  }

  ghost predicate IsFullRound(r: nat) { r < FULL_ROUNDS / 2 || r >= FULL_ROUNDS / 2 + PARTIAL_ROUNDS }

  ghost function AddConstants(p: Parameters, r: nat, s: Lanes): Lanes
    requires WellFormed(p) && r < ROUNDS
  {
    [Add(s[0], p.c[3 * r]), Add(s[1], p.c[3 * r + 1]), Add(s[2], p.c[3 * r + 2])]
  }

  ghost function SBox(r: nat, s: Lanes): Lanes {
    if IsFullRound(r) then [Pow5(s[0]), Pow5(s[1]), Pow5(s[2])] else [Pow5(s[0]), s[1], s[2]]
  }

  ghost function Mix(p: Parameters, s: Lanes): Lanes
    requires WellFormed(p)
  {
    [Dot(p.m[0], s), Dot(p.m[1], s), Dot(p.m[2], s)]
  }

  /** The state after the first n rounds. */
  ghost function Permutation(p: Parameters, s: Lanes, n: nat): Lanes
    requires WellFormed(p) && n <= ROUNDS
  {
    if n == 0 then s else Mix(p, SBox(n - 1, AddConstants(p, n - 1, Permutation(p, s, n - 1))))
  }

  ghost function Hash2(p: Parameters, left: Fe, right: Fe): Fe
    requires WellFormed(p)
  {
    Permutation(p, [0, left, right], ROUNDS)[0]
  }

  // ---- The same over Montgomery limbs ----

  datatype Tables = Tables(c: seq<Fr>, m: seq<seq<Fr>>)

  ghost predicate AllReduced(s: seq<Fr>) { forall i :: 0 <= i < |s| ==> Reduced(s[i]) }

  ghost predicate ValidTables(t: Tables) {
    && |t.c| == 3 * ROUNDS && AllReduced(t.c)
    && |t.m| == 3 && forall i :: 0 <= i < 3 ==> |t.m[i]| == 3 && AllReduced(t.m[i])
  }

  ghost function DecodeAll(s: seq<Fr>): (d: seq<Fe>)
    ensures |d| == |s| && forall i :: 0 <= i < |s| ==> d[i] == Decode(Value(s[i]))
  {
    if s == [] then [] else DecodeAll(s[..|s| - 1]) + [Decode(Value(s[|s| - 1]))]
  }

  /** The field constants the tables hold. */
  ghost function Constants(t: Tables): (p: Parameters)
    requires ValidTables(t)
    ensures WellFormed(p)
  {
    Parameters(DecodeAll(t.c), [DecodeAll(t.m[0]), DecodeAll(t.m[1]), DecodeAll(t.m[2])])
  }

  /** Sum and product of reduced values, decoded. */
  lemma FrSum(r: Fr, a: Fr, b: Fr)
    requires Reduced(a) && Reduced(b) && Value(r) == Add(Value(a), Value(b))
    ensures Reduced(r) && Decode(Value(r)) == Add(Decode(Value(a)), Decode(Value(b)))
  {
    SumDecodes(Value(a), Value(b));
  }

  ghost function PartialDot(row: Lanes, s: Lanes, n: nat): Fe
    requires n <= 3
  {
    if n == 0 then 0 else Add(PartialDot(row, s, n - 1), Mul(row[n - 1], s[n - 1]))
  }

  lemma PartialDotAll(row: Lanes, s: Lanes)
    ensures PartialDot(row, s, 3) == Dot(row, s)
  {
    assert PartialDot(row, s, 1) == Mul(row[0], s[0]);
    assert PartialDot(row, s, 2) == Add(Mul(row[0], s[0]), Mul(row[1], s[1]));
  }

  /** The inner loop of mix: one row of the matrix against the state. */
  method MixRow(row: seq<Fr>, state: seq<Fr>) returns (acc: Fr)
    requires |row| == |state| == 3 && AllReduced(row) && AllReduced(state)
    ensures Reduced(acc) && Decode(Value(acc)) == Dot(DecodeAll(row), DecodeAll(state))
  {
    ghost var x, y := DecodeAll(row), DecodeAll(state);
    hide Value, Decode, IsMontgomeryProduct, Reduced, Add, Mul, DecodeAll;
    acc := ZERO;
    ZeroDecodes();
    var j := 0;
    while j < 3
      invariant 0 <= j <= 3
      invariant Reduced(acc) && Decode(Value(acc)) == PartialDot(x, y, j)
    {
      var product := MulFr(row[j], state[j]);
      ProductDecodes(product, row[j], state[j]);
      var sum := AddFr(acc, product);
      FrSum(sum, acc, product);
      acc := sum;
      j := j + 1;
    }
    PartialDotAll(x, y);
  }

  lemma ZeroDecodes()
    ensures Reduced(ZERO) && Decode(Value(ZERO)) == 0
  {
    hide Value, Reduce;
    ZeroValue();
    ZeroTimes(RADIX_INVERSE);
    SmallReduces(0);
  }

  lemma ZeroValue()
    ensures Value(ZERO) == 0
  {
  }

  lemma ZeroTimes(x: int)
    ensures 0 * x == 0
  {
  }

  method MixFr(t: Tables, state: seq<Fr>) returns (out: seq<Fr>)
    requires ValidTables(t) && |state| == 3 && AllReduced(state)
    ensures |out| == 3 && AllReduced(out)
    ensures DecodeAll(out) == Mix(Constants(t), DecodeAll(state))
  {
    hide Value, Decode, Reduced, Dot;
    ZeroDecodes();
    out := [ZERO, ZERO, ZERO];
    var i := 0;
    while i < 3
      invariant 0 <= i <= 3 && |out| == 3 && AllReduced(out)
      invariant forall k :: 0 <= k < i ==> Decode(Value(out[k])) == Dot(DecodeAll(t.m[k]), DecodeAll(state))
    {
      var acc := MixRow(t.m[i], state);
      out := out[i := acc];
      i := i + 1;
    }
  }

  ghost predicate ReducedState(state: array<Fr>)
    reads state
  {
    state.Length == 3 && AllReduced(state[..])
  }

  method AddRoundConstants(t: Tables, r: nat, state: array<Fr>)
    requires ValidTables(t) && r < ROUNDS && ReducedState(state)
    modifies state
    ensures ReducedState(state)
    ensures DecodeAll(state[..]) == AddConstants(Constants(t), r, old(DecodeAll(state[..])))
  {
    hide Value, Decode, Reduced, Add, DecodeAll;
    ghost var was := state[..];
    var i := 0;
    while i < 3
      invariant 0 <= i <= 3 && ReducedState(state)
      invariant forall k :: i <= k < 3 ==> state[k] == was[k]
      invariant forall k :: 0 <= k < i ==>
        Decode(Value(state[k])) == Add(Decode(Value(was[k])), Decode(Value(t.c[r * 3 + k])))
    {
      var sum := AddFr(state[i], t.c[r * 3 + i]);
      FrSum(sum, state[i], t.c[r * 3 + i]);
      state[i] := sum;
      i := i + 1;
    }
    assert DecodeAll(state[..]) == AddConstants(Constants(t), r, DecodeAll(was));
  }

  method SBoxLayer(r: nat, state: array<Fr>)
    requires ReducedState(state)
    modifies state
    ensures ReducedState(state)
    ensures DecodeAll(state[..]) == SBox(r, old(DecodeAll(state[..])))
  {
    hide Value, Decode, Reduced, Pow5, DecodeAll;
    ghost var was := state[..];
    if r < FULL_ROUNDS / 2 || r >= FULL_ROUNDS / 2 + PARTIAL_ROUNDS {
      var i := 0;
      while i < 3
        invariant 0 <= i <= 3 && ReducedState(state)
        invariant forall k :: i <= k < 3 ==> state[k] == was[k]
        invariant forall k :: 0 <= k < i ==> Decode(Value(state[k])) == Pow5(Decode(Value(was[k])))
      {
        var power := Pow5Fr(state[i]);
        state[i] := power;
        i := i + 1;
      }
    } else {
      var power := Pow5Fr(state[0]);
      state[0] := power;
    }
    assert DecodeAll(state[..]) == SBox(r, DecodeAll(was));
  }

  method MixLayer(t: Tables, state: array<Fr>)
    requires ValidTables(t) && ReducedState(state)
    modifies state
    ensures ReducedState(state)
    ensures DecodeAll(state[..]) == Mix(Constants(t), old(DecodeAll(state[..])))
  {
    hide Value, Decode, Reduced, Mix, DecodeAll;
    var out := MixFr(t, state[..]);
    state[0], state[1], state[2] := out[0], out[1], out[2];
    assert state[..] == out;
  }

  /** The hash of two 32-byte inputs: the canonical encoding of the permutation's first lane, on
      whatever the inputs are modulo r. */
  method Poseidon2Be(t: Tables, left: seq<Byte>, right: seq<Byte>) returns (out: seq<Byte>)
    requires ValidTables(t) && |left| == |right| == 32
    ensures out == ToBytes(Hash2(Constants(t), Reduce(BigEndian(left)), Reduce(BigEndian(right))), 32)
  {
    hide Value, Decode, Reduced, BigEndian, ToBytes, AddConstants, SBox, Mix, DecodeAll;
    var l := FromBeBytes(left);
    var r := FromBeBytes(right);
    var state := new Fr[3](i => ZERO);
    state[1], state[2] := l, r;
    ZeroDecodes();
    ghost var start: Lanes := [0, Reduce(BigEndian(left)), Reduce(BigEndian(right))];
    assert DecodeAll(state[..]) == start;
    var round := 0;
    while round < ROUNDS
      invariant 0 <= round <= ROUNDS && ReducedState(state)
      invariant DecodeAll(state[..]) == Permutation(Constants(t), start, round)
    {
      AddRoundConstants(t, round, state);
      SBoxLayer(round, state);
      MixLayer(t, state);
      round := round + 1;
    }
    out := ToBeBytes(state[0]);
    assert Decode(Value(state[0])) == DecodeAll(state[..])[0];
  }

  /** The digest is a canonical 32-byte encoding, and only the residues of the inputs matter. */
  lemma DigestCanonical(p: Parameters, left: Fe, right: Fe)
    requires WellFormed(p)
    ensures BigEndian(ToBytes(Hash2(p, left, right), 32)) == Hash2(p, left, right) < R
  {
    Pow256Values();
    BigEndianOfToBytes(Hash2(p, left, right), 32);
  }
}
