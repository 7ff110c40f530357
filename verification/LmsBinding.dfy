/**
 What acceptance binds: two signatures accepted under the same key and leaf agree on everything
 the key commits to, and signing a second message reveals a preimage along a hash chain.
 */
module LmsBinding {
  import opened Octets
  import opened Sha256
  import opened StreamHash
  import opened Lms

  /** No two of these inputs have the same hash. */
  ghost predicate NoCollision(h: Hash, inputs: set<Bytes>) {
    forall x, y :: x in inputs && y in inputs && h(x) == h(y) ==> x == y
  }

  lemma SameInput(h: Hash, x: Bytes, y: Bytes, inputs: set<Bytes>)
    requires NoCollision(h, inputs) && x in inputs && y in inputs && h(x) == h(y)
    ensures x == y
  {
  }

  ghost function ClimbInputs(h: Hash, id: Bytes, node: Node, r: nat, path: Bytes): set<Bytes>
    decreases |path|
  {
    if |path| < 32 then {}
    else
      var input := ParentInput(id, r, node, path[..32]);
      {input} + ClimbInputs(h, id, h(input), r / 2, path[32..])
  }

  ghost function ChainInputs(h: Hash, id: Bytes, q: Bytes, i: nat, tmp: Node, from: nat, to: nat): set<Bytes>
    requires from <= to < 256
    decreases (to as int) - from
  {
    if from == to then {}
    else
      var input := ChainInput(id, q, i, from, tmp);
      {input} + ChainInputs(h, id, q, i, h(input), from + 1, to)
  }

  lemma {:induction false} ChainBinds(h: Hash, id: Bytes, q: Bytes, i: nat, a: Node, b: Node, from: nat, to: nat,
      inputs: set<Bytes>)
    requires from <= to < 256
    requires ChainInputs(h, id, q, i, a, from, to) <= inputs && ChainInputs(h, id, q, i, b, from, to) <= inputs
    requires NoCollision(h, inputs)
    requires Chain(h, id, q, i, a, from, to) == Chain(h, id, q, i, b, from, to)
    ensures a == b
    decreases (to as int) - from
  {
    if from < to {
      var x, y := ChainInput(id, q, i, from, a), ChainInput(id, q, i, from, b);
      ChainBinds(h, id, q, i, h(x), h(y), from + 1, to, inputs);
      assert x == y;
      var k := |id + q + Be16(i) + [from]|;
      assert x[k..] == a && y[k..] == b;
    }
  }

  lemma {:induction false} ChainInputsSuffix(h: Hash, id: Bytes, q: Bytes, i: nat, tmp: Node, from: nat, mid: nat,
      to: nat)
    requires from <= mid <= to < 256
    ensures ChainInputs(h, id, q, i, Chain(h, id, q, i, tmp, from, mid), mid, to) <= ChainInputs(h, id, q, i, tmp,
            from, to)
    decreases mid - from
  {
    if from < mid {
      ChainInputsSuffix(h, id, q, i, h(ChainInput(id, q, i, from, tmp)), from + 1, mid, to);
    }
  }

  lemma ParentInputBinds(id: Bytes, r: nat, a: Node, b: Node, s: Node, t: Node)
    requires ParentInput(id, r, a, s) == ParentInput(id, r, b, t)
    ensures a == b && s == t
  {
    hide Be32;
    var k := |id + Be32(r / 2) + D_INTERIOR|;
    var x, y := ParentInput(id, r, a, s), ParentInput(id, r, b, t);
    if r % 2 == 1 {
      assert x[k..] == s + a && y[k..] == t + b;
      SplitPair(s, a, t, b);
    } else {
      assert x[k..] == a + s && y[k..] == b + t;
      SplitPair(a, s, b, t);
    }
  }

  lemma SplitPair(a: Node, b: Node, c: Node, d: Node)
    requires a + b == c + d
    ensures a == c && b == d
  {
    assert (a + b)[..32] == a && (a + b)[32..] == b;
    assert (c + d)[..32] == c && (c + d)[32..] == d;
  }

  /** Two climbs from the same place to the same root start at the same node and follow the same path. */
  lemma {:induction false} ClimbBinds(h: Hash, id: Bytes, a: Node, b: Node, r: nat, p: Bytes, p': Bytes,
      inputs: set<Bytes>)
    requires |p| == |p'| && |p| % 32 == 0
    requires ClimbInputs(h, id, a, r, p) <= inputs && ClimbInputs(h, id, b, r, p') <= inputs
    requires NoCollision(h, inputs)
    requires Climb(h, id, a, r, p) == Climb(h, id, b, r, p')
    ensures a == b && p == p'
    decreases |p|
  {
    hide ParentInput, NoCollision;
    if |p| >= 32 {
      var x, y := ParentInput(id, r, a, p[..32]), ParentInput(id, r, b, p'[..32]);
      ClimbBinds(h, id, h(x), h(y), r / 2, p[32..], p'[32..], inputs);
      SameInput(h, x, y, inputs);
      ParentInputBinds(id, r, a, b, p[..32], p'[..32]);
      assert p == p[..32] + p[32..] && p' == p'[..32] + p'[32..];
    }
  }

  /** The parts of an accepted signature. */
  function SigLeaf(sig: Bytes): nat
    requires |sig| == LMS_SIG_LEN
  {
    LoadBe32(sig[..4])
  }

  function SigOts(sig: Bytes): Bytes
    requires |sig| == LMS_SIG_LEN
  {
    sig[4..4 + LMOTS_SIG_LEN]
  }

  function SigPath(sig: Bytes): Bytes
    requires |sig| == LMS_SIG_LEN
  {
    sig[8 + LMOTS_SIG_LEN..]
  }

  function KeyId(publicKey: Bytes): Bytes
    requires |publicKey| == PUBLIC_KEY_LEN
  {
    publicKey[8..24]
  }

  function OtsDigits(h: Hash, id: Bytes, q: Bytes, msg: Bytes, ots: Bytes): (d: Bytes)
    requires |ots| == LMOTS_SIG_LEN
    ensures |d| == P
  {
    Digits(OtsDigest(h, id, q, msg, ots))
  }

  function OtsDigest(h: Hash, id: Bytes, q: Bytes, msg: Bytes, ots: Bytes): Node
    requires |ots| == LMOTS_SIG_LEN
  {
    MessageHash(h, id, q, ots[4..36], msg)
  }

  function OtsEnds(h: Hash, id: Bytes, q: Bytes, msg: Bytes, ots: Bytes): (e: Bytes)
    requires |ots| == LMOTS_SIG_LEN
    ensures |e| == P * 32
  {
    ChainEnds(h, id, q, OtsDigits(h, id, q, msg, ots), ots[36..], P)
  }

  /** The value revealed for chain `i`. */
  function OtsValue(ots: Bytes, i: nat): Node
    requires |ots| == LMOTS_SIG_LEN && i < P
  {
    ots[36 + i * 32..36 + (i + 1) * 32]
  }

  ghost function PublicInput(id: Bytes, q: Bytes, ends: Bytes): Bytes {
    id + q + D_PUBLIC + ends
  }

  ghost function LeafInput(id: Bytes, r: nat, key: Node): Bytes {
    id + Be32(r) + D_LEAF + key
  }

  /** Everything the verifier hashes after the message itself. */
  ghost predicate CoversRun(h: Hash, id: Bytes, msg: Bytes, sig: Bytes, inputs: set<Bytes>)
    requires |sig| == LMS_SIG_LEN
  {
    var q, ots := Be32(SigLeaf(sig)), SigOts(sig);
    var ends := OtsEnds(h, id, q, msg, ots);
    var key := PublicHash(h, id, q, ends);
    var r := LEAVES + SigLeaf(sig);
    && PublicInput(id, q, ends) in inputs
    && LeafInput(id, r, key) in inputs
    && ClimbInputs(h, id, LeafHash(h, id, r, key), r, SigPath(sig)) <= inputs
    && forall i :: 0 <= i < P ==> CoversChain(h, id, q, msg, ots, i, inputs)
  }

  ghost predicate CoversChain(h: Hash, id: Bytes, q: Bytes, msg: Bytes, ots: Bytes, i: nat, inputs: set<Bytes>)
    requires |ots| == LMOTS_SIG_LEN && i < P
  {
    ChainInputs(h, id, q, i, OtsValue(ots, i), OtsDigits(h, id, q, msg, ots)[i], 255) <= inputs
  }

  /** `Accepts`, in terms of the parts. */
  lemma AcceptedRoot(h: Hash, publicKey: Bytes, msg: Bytes, sig: Bytes)
    requires Accepts(h, publicKey, msg, sig)
    ensures var id, q := KeyId(publicKey), SigLeaf(sig);
      && q < LEAVES
      && var key := PublicHash(h, id, Be32(q), OtsEnds(h, id, Be32(q), msg, SigOts(sig)));
      && Climb(h, id, LeafHash(h, id, LEAVES + q, key), LEAVES + q, SigPath(sig)) == publicKey[24..]
  {
    hide Digits, MessageHash, ChainEnds, PublicHash, LeafHash, Climb, LoadBe32, Be32;
    assert SigOts(sig)[36..] == SigOts(sig)[36..];
  }

  lemma {:induction false} EndsAt(h: Hash, id: Bytes, q: Bytes, digits: Bytes, y: Bytes, i: nat, n: nat)
    requires i < n <= |digits| && n * 32 <= |y|
    ensures ChainEnds(h, id, q, digits, y, n)[i * 32..(i + 1) * 32] ==
            Chain(h, id, q, i, y[i * 32..(i + 1) * 32], digits[i], 255)
  {
    hide Chain;
    if i < n - 1 {
      EndsAt(h, id, q, digits, y, i, n - 1);
      var e, f := ChainEnds(h, id, q, digits, y, n), ChainEnds(h, id, q, digits, y, n - 1);
      assert e[i * 32..(i + 1) * 32] == f[i * 32..(i + 1) * 32];
    }
  }

  /**
   Two signatures accepted for the same leaf have the same path, and their one-time parts end all
   their chains at the same values, unless two inputs the verifier hashed collide.
   */
  lemma SameLeafBinds(h: Hash, publicKey: Bytes, msg: Bytes, sig: Bytes, msg': Bytes, sig': Bytes, inputs: set<Bytes>)
    requires Accepts(h, publicKey, msg, sig) && Accepts(h, publicKey, msg', sig')
    requires SigLeaf(sig) == SigLeaf(sig')
    requires CoversRun(h, KeyId(publicKey), msg, sig, inputs) && CoversRun(h, KeyId(publicKey), msg', sig', inputs)
    requires NoCollision(h, inputs)
    ensures SigPath(sig) == SigPath(sig')
    ensures var id, q := KeyId(publicKey), Be32(SigLeaf(sig));
      OtsEnds(h, id, q, msg, SigOts(sig)) == OtsEnds(h, id, q, msg', SigOts(sig'))
  {
    hide Candidate, OtsEnds, Climb, Be32, LoadBe32;
    var id, q := KeyId(publicKey), Be32(SigLeaf(sig));
    var r := LEAVES + SigLeaf(sig);
    var e, e' := OtsEnds(h, id, q, msg, SigOts(sig)), OtsEnds(h, id, q, msg', SigOts(sig'));
    var k, k' := PublicHash(h, id, q, e), PublicHash(h, id, q, e');
    AcceptedRoot(h, publicKey, msg, sig);
    AcceptedRoot(h, publicKey, msg', sig');
    ClimbBinds(h, id, LeafHash(h, id, r, k), LeafHash(h, id, r, k'), r, SigPath(sig), SigPath(sig'), inputs);
    SuffixBinds(id + Be32(r) + D_LEAF, k, k');
    SuffixBinds(id + q + D_PUBLIC, e, e');
  }

  lemma SuffixBinds(prefix: Bytes, a: Bytes, b: Bytes)
    ensures prefix + a == prefix + b ==> a == b
  {
    assert (prefix + a)[|prefix|..] == a && (prefix + b)[|prefix|..] == b;
  }

  /** Some chain of the second signature has to be opened further back than the first one opened it. */
  lemma OpenedFurtherBack(a: Node, b: Node) returns (i: nat)
    requires a != b
    ensures i < P && Digits(b)[i] < Digits(a)[i]
  {
    hide Checksum;
    DigitsAntichain(a, b);
    i :| 0 <= i < P && !(Digits(a)[i] <= Digits(b)[i]);
  }

  /**
   Signing a second message with a used leaf takes inverting the hash: if the two message digests
   differ and no verified inputs collide, the second signature holds a value from which some number
   of chain steps, at least one, leads to a value the first signature revealed.
   */
  lemma SecondSignatureInverts(h: Hash, publicKey: Bytes, msg: Bytes, sig: Bytes, msg': Bytes, sig': Bytes,
      inputs: set<Bytes>)
      returns (i: nat)
    requires Accepts(h, publicKey, msg, sig) && Accepts(h, publicKey, msg', sig')
    requires SigLeaf(sig) == SigLeaf(sig')
    requires CoversRun(h, KeyId(publicKey), msg, sig, inputs) && CoversRun(h, KeyId(publicKey), msg', sig', inputs)
    requires NoCollision(h, inputs)
    requires var id, q := KeyId(publicKey), Be32(SigLeaf(sig));
      OtsDigest(h, id, q, msg, SigOts(sig)) != OtsDigest(h, id, q, msg', SigOts(sig'))
    ensures i < P
    ensures var id, q := KeyId(publicKey), Be32(SigLeaf(sig));
      var d, d' := OtsDigits(h, id, q, msg, SigOts(sig)), OtsDigits(h, id, q, msg', SigOts(sig'));
      && d'[i] < d[i]
      && Chain(h, id, q, i, OtsValue(SigOts(sig'), i), d'[i], d[i]) == OtsValue(SigOts(sig), i)
  {
    hide Candidate, Climb, OtsDigest, OtsEnds, Digits, Chain, ChainInputs, ClimbInputs, LeafInput, PublicInput, Be32,
         LoadBe32;
    var id, q := KeyId(publicKey), Be32(SigLeaf(sig));
    var ots, ots' := SigOts(sig), SigOts(sig');
    SameLeafBinds(h, publicKey, msg, sig, msg', sig', inputs);
    i := OpenedFurtherBack(OtsDigest(h, id, q, msg, ots), OtsDigest(h, id, q, msg', ots'));
    assert CoversChain(h, id, q, msg, ots, i, inputs) && CoversChain(h, id, q, msg', ots', i, inputs);
    ChainsMeet(h, id, q, msg, ots, msg', ots', i, inputs);
  }

  lemma ChainsMeet(h: Hash, id: Bytes, q: Bytes, msg: Bytes, ots: Bytes, msg': Bytes, ots': Bytes, i: nat,
      inputs: set<Bytes>)
    requires |ots| == |ots'| == LMOTS_SIG_LEN && i < P
    requires CoversChain(h, id, q, msg, ots, i, inputs) && CoversChain(h, id, q, msg', ots', i, inputs)
    requires NoCollision(h, inputs)
    requires OtsEnds(h, id, q, msg, ots) == OtsEnds(h, id, q, msg', ots')
    requires OtsDigits(h, id, q, msg', ots')[i] < OtsDigits(h, id, q, msg, ots)[i]
    ensures Chain(h, id, q, i, OtsValue(ots', i), OtsDigits(h, id, q, msg', ots')[i], OtsDigits(h, id, q, msg, ots)[i])
         == OtsValue(ots, i)
  {
    hide OtsDigits, Chain, ChainInputs, ChainEnds;
    var d, d' := OtsDigits(h, id, q, msg, ots), OtsDigits(h, id, q, msg', ots');
    EndsAt(h, id, q, d, ots[36..], i, P);
    EndsAt(h, id, q, d', ots'[36..], i, P);
    assert ots[36..][i * 32..(i + 1) * 32] == OtsValue(ots, i);
    assert ots'[36..][i * 32..(i + 1) * 32] == OtsValue(ots', i);
    ChainCompose(h, id, q, i, OtsValue(ots', i), d'[i], d[i], 255);
    ChainInputsSuffix(h, id, q, i, OtsValue(ots', i), d'[i], d[i], 255);
    ChainBinds(h, id, q, i, OtsValue(ots, i), Chain(h, id, q, i, OtsValue(ots', i), d'[i], d[i]), d[i], 255, inputs);
  }
}
