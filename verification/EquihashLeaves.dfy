/** What the leaves of an Equihash tree are, in terms of the generator's bytes: which bytes of which
    output an index owns, and which bits of those each chunk of its hash is. */
module EquihashLeaves {
  import opened Numbers
  import opened Radix
  import opened BitPacking
  import opened IndexCodec
  import opened EquihashVerifier

  // --- The slice of an index ---

  lemma QuotientAndRest(g: nat, m: nat, q: nat)
    requires q < m
    ensures (g * m + q) / m == g && (g * m + q) % m == q
  {
    DivUnique(g * m + q, m, g, q);
  }

  /** Output `g` of the generator holds the hashes of `512 / n` consecutive indices, one after the other. */
  lemma SliceIs(p: Params, gen: nat -> seq<byte>, g: nat, q: nat)
    requires p.Valid() && GeneratorOk(p, gen) && q < 512 / p.n
    ensures var s := (p.n + 7) / 8;
      && q * s <= (q + 1) * s <= |gen(g)|
      && LeafSlice(p, gen, g * (512 / p.n) + q) == gen(g)[q * s..(q + 1) * s]
  {
    hide FitsAccumulator, WidthBytes;
    var s, m := (p.n + 7) / 8, 512 / p.n;
    QuotientAndRest(g, m, q);
    WidthIsProduct(s, q);
    WidthIsProduct(s, q + 1);
    WidthMono(s, q + 1, m);
    assert (q + 1) * s == q * s + s;
  }

  /** The hashes of `n` consecutive indices. */
  function Slices(p: Params, gen: nat -> seq<byte>, first: nat, n: nat): seq<byte>
    requires p.Valid() && GeneratorOk(p, gen)
  {
    if n == 0 then [] else Slices(p, gen, first, n - 1) + LeafSlice(p, gen, first + n - 1)
  }

  /** Slice `q` of the output that starts with index `first`. */
  lemma SliceAt(p: Params, gen: nat -> seq<byte>, g: nat, m: nat, first: nat, q: nat)
    requires p.Valid() && GeneratorOk(p, gen) && p.n > 0 && m == 512 / p.n && first == g * m && q < m
    ensures IsSlice(p, gen, gen(g), first, q)
  {
    hide LeafSlice, GeneratorOk, Width, Params.Valid;
    SliceIs(p, gen, g, q);
    var s := (p.n + 7) / 8;
    WidthIsProduct(s, q);
    WidthIsProduct(s, q + 1);
    Commutes(s, q);
    Commutes(s, q + 1);
  }

  lemma Commutes(a: int, b: int)
    ensures a * b == b * a
  {
  }

  ghost predicate IsSlice(p: Params, gen: nat -> seq<byte>, out: seq<byte>, first: nat, q: nat)
    requires p.Valid() && GeneratorOk(p, gen)
  {
    var s := (p.n + 7) / 8;
    Width(s, q) <= Width(s, q + 1) <= |out| && LeafSlice(p, gen, first + q) == out[Width(s, q)..Width(s, q + 1)]
  }

  lemma {:induction false} FirstSlices(p: Params, gen: nat -> seq<byte>, out: seq<byte>, first: nat, n: nat)
    requires p.Valid() && GeneratorOk(p, gen) && forall q: nat :: q < n ==> IsSlice(p, gen, out, first, q)
    ensures Width((p.n + 7) / 8, n) <= |out| && Slices(p, gen, first, n) == out[..Width((p.n + 7) / 8, n)]
  {
    hide LeafSlice, GeneratorOk, Width, Params.Valid;
    var s := (p.n + 7) / 8;
    if n > 0 {
      FirstSlices(p, gen, out, first, n - 1);
      assert IsSlice(p, gen, out, first, n - 1);
      Adjoining(out, Width(s, n - 1), Width(s, n));
    } else {
      NoWidth(s);
    }
  }

  lemma OutputLength(p: Params, gen: nat -> seq<byte>, g: nat)
    requires p.Valid() && GeneratorOk(p, gen) && p.n > 0
    ensures |gen(g)| == Width((p.n + 7) / 8, 512 / p.n)
  {
    hide Params.Valid;
  }

  lemma Adjoining(bytes: seq<byte>, i: nat, j: nat)
    requires i <= j <= |bytes|
    ensures bytes[..i] + bytes[i..j] == bytes[..j]
  {
  }

  /** So they make up the output: no byte is left out, and none is used twice. */
  lemma SlicesTile(p: Params, gen: nat -> seq<byte>, g: nat, m: nat, first: nat)
    requires p.Valid() && GeneratorOk(p, gen) && p.n > 0 && m == 512 / p.n && first == g * m
    ensures Slices(p, gen, first, m) == gen(g)
  {
    hide LeafSlice, Slices, IsSlice, GeneratorOk, Width, Params.Valid;
    forall q: nat | q < m
      ensures IsSlice(p, gen, gen(g), first, q)
    {
      SliceAt(p, gen, g, m, first, q);
    }
    FirstSlices(p, gen, gen(g), first, m);
    OutputLength(p, gen, g);
    assert gen(g)[..|gen(g)|] == gen(g);
  }

  /** With 150 bits: three indices to an output of 57 bytes. */
  lemma ThreeToAnOutput(p: Params, gen: nat -> seq<byte>, g: nat)
    requires p.Valid() && GeneratorOk(p, gen) && p.n == 150
    ensures |gen(g)| == 57
    ensures LeafSlice(p, gen, 3 * g) + LeafSlice(p, gen, 3 * g + 1) + LeafSlice(p, gen, 3 * g + 2) == gen(g)
  {
    hide LeafSlice, Slices, GeneratorOk, Params.Valid;
    SlicesTile(p, gen, g, 3, 3 * g);
    ThreeSlices(p, gen, 3 * g);
  }

  lemma ThreeSlices(p: Params, gen: nat -> seq<byte>, i: nat)
    requires p.Valid() && GeneratorOk(p, gen)
    ensures Slices(p, gen, i, 3) == LeafSlice(p, gen, i) + LeafSlice(p, gen, i + 1) + LeafSlice(p, gen, i + 2)
  {
    hide LeafSlice, GeneratorOk, Params.Valid;
    assert Slices(p, gen, i, 1) == [] + LeafSlice(p, gen, i);
    assert Slices(p, gen, i, 2) == Slices(p, gen, i, 1) + LeafSlice(p, gen, i + 1);
  }

  // --- The chunks of a hash ---

  /** Chunk `j` of the hash of index `i`, read as a number, is the `j`-th group of `n / (k + 1)` bits of
      the index's slice. */
  lemma ChunkIs(p: Params, gen: nat -> seq<byte>, i: nat, j: nat, b: nat, c: nat)
    requires p.Valid() && GeneratorOk(p, gen) && j <= p.k && b == p.n / (p.k + 1) && c == (b + 7) / 8
    ensures var slice := LeafSlice(p, gen, i);
      && c * j + c <= |LeafHash(p, gen, i)| && b * (j + 1) <= 8 * |slice|
      && Val(LeafHash(p, gen, i)[c * j..c * j + c], 8)
         == Val(slice, 8) / Pow2(8 * |slice| - b * (j + 1)) % Pow2(b)
  {
    hide LeafSlice, Serialize, Expanded, FitsAccumulator, WidthBytes, Width, Digits, Val, Pow2, Params.Valid;
    var slice := LeafSlice(p, gen, i);
    LeafLengths(p);
    Chunks(p);
    ElementIs(slice, b, j);
    ElementBytes(Expanded(slice, b), c, j);
    ElementFits(slice, b, j);
    WidthOfBits(b);
    LowOfSmall(Expanded(slice, b)[j], Width(8, c));
  }

  lemma Chunks(p: Params)
    requires p.Valid()
    ensures 8 * SizeInBytes(p.n) / p.CollisionBitLength() == p.k + 1 && p.CollisionBitLength() > 0
    ensures p.CollisionByteLength() == (p.CollisionBitLength() + 7) / 8
  {
    hide FitsAccumulator;
  }

  lemma WidthOfBits(b: nat)
    ensures Pow2(b) <= Pow2(Width(8, (b + 7) / 8))
  {
    WidthIsProduct(8, (b + 7) / 8);
    Pow2Mono(b, 8 * ((b + 7) / 8));
  }

  lemma ElementFits(input: seq<nat>, w: nat, j: nat)
    requires w > 0 && j < |Expanded(input, w)|
    ensures Expanded(input, w)[j] < Pow2(w)
  {
    hide Expanded, Pow2;
    ExpandedBelow(input, w);
  }

  /** The `j`-th stored element, without padding. */
  lemma {:induction false} ElementBytes(es: seq<nat>, c: nat, j: nat)
    requires j < |es|
    ensures c * j + c <= |Serialize(es, 0, c)|
    ensures Val(Serialize(es, 0, c)[c * j..c * j + c], 8) == Low(es[j], Width(8, c))
  {
    hide Digits, Val, Low;
    var m := |es| - 1;
    WidthIsProduct(c, m);
    WidthIsProduct(c, |es|);
    var front := Serialize(es[..m], 0, c);
    assert Zeros(0) + Digits(es[m], 8, c) == Digits(es[m], 8, c);
    assert Serialize(es, 0, c) == front + Digits(es[m], 8, c);
    if j < m {
      ElementBytes(es[..m], c, j);
      assert Serialize(es, 0, c)[c * j..c * j + c] == front[c * j..c * j + c];
    } else {
      assert Serialize(es, 0, c)[c * j..c * j + c] == Digits(es[m], 8, c);
      ValDigits(es[m], 8, c);
    }
  }
}
