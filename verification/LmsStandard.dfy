/**
 RFC 8554 on literal bytes: what LMS hashes, a signer, and what a verifier has to accept.  Nothing here
 uses the byte layouts or the loops of the verifier, which is then proved to agree.
 */
module LmsStandard {
  import opened Octets
  import opened Sha256
  import opened StreamHash
  import opened Wrappers
  import opened Lms

  // ---------- what is hashed (sections 4.3 to 4.6 and 5.3) ----------

  datatype Hashed =
    | ChainStep(q: nat, i: nat, j: Byte, tmp: Node)
    | Message(q: nat, c: Node, msg: Bytes)
    | OneTimeKey(q: nat, ends: Bytes)
    | Leaf(r: nat, key: Node)
    | Interior(r: nat, left: Node, right: Node)

  function U32(v: nat): (b: Bytes)
    ensures |b| == 4
  {
    [v / 0x100_0000 % 256, v / 0x1_0000 % 256, v / 0x100 % 256, v % 256]
  }

  function Layout(id: Bytes, x: Hashed): Bytes {
    match x
    case ChainStep(q, i, j, tmp) => id + U32(q) + [i / 256 % 256, i % 256] + ([j] + tmp)
    case Message(q, c, msg) => id + U32(q) + [0x81, 0x81] + (c + msg)
    case OneTimeKey(q, ends) => id + U32(q) + [0x80, 0x80] + ends
    case Leaf(r, key) => id + U32(r) + [0x82, 0x82] + key
    case Interior(r, left, right) => id + U32(r) + [0x83, 0x83] + (left + right)
  }

  /** The numbers that LMS puts into these inputs. */
  predicate InRange(x: Hashed) {
    && Place(x) < 0x1_0000_0000
    && (x.ChainStep? ==> x.i < 34)
  }

  function Place(x: Hashed): nat {
    match x
    case ChainStep(q, _, _, _) => q
    case Message(q, _, _) => q
    case OneTimeKey(q, _) => q
    case Leaf(r, _) => r
    case Interior(r, _, _) => r
  }

  /** The two bytes that tell the five kinds apart. */
  function Tag(x: Hashed): (t: Bytes)
    ensures |t| == 2
  {
    match x
    case ChainStep(_, i, _, _) => [i / 256 % 256, i % 256]
    case Message(_, _, _) => [0x81, 0x81]
    case OneTimeKey(_, _) => [0x80, 0x80]
    case Leaf(_, _) => [0x82, 0x82]
    case Interior(_, _, _) => [0x83, 0x83]
  }

  function Rest(x: Hashed): Bytes {
    match x
    case ChainStep(_, _, j, tmp) => [j] + tmp
    case Message(_, c, msg) => c + msg
    case OneTimeKey(_, ends) => ends
    case Leaf(_, key) => key
    case Interior(_, left, right) => left + right
  }

  lemma LayoutParts(id: Bytes, x: Hashed)
    requires |id| == 16
    ensures |Layout(id, x)| == 22 + |Rest(x)|
    ensures Layout(id, x)[..16] == id && Layout(id, x)[16..20] == U32(Place(x))
    ensures Layout(id, x)[20..22] == Tag(x) && Layout(id, x)[22..] == Rest(x)
  {
    hide U32;
    var s := Layout(id, x);
    assert s == id + U32(Place(x)) + Tag(x) + Rest(x);
    assert s[22..] == Rest(x);
  }

  lemma U32Injective(v: nat, w: nat)
    requires v < 0x1_0000_0000 && w < 0x1_0000_0000 && U32(v) == U32(w)
    ensures v == w
  {
    var a, b := U32(v), U32(w);
    assert a[0] == b[0] && a[1] == b[1] && a[2] == b[2] && a[3] == b[3];
    BytesMakeWord(v);
    BytesMakeWord(w);
  }

  lemma BytesMakeWord(v: nat)
    requires v < 0x1_0000_0000
    ensures LoadBe32(U32(v)) == v
  {
    var a, b, c := v / 0x100, v / 0x1_0000, v / 0x100_0000;
    assert a / 0x100 == b && b / 0x100 == c;
  }

  /** What is hashed determines the key, the kind, the place and the contents: no two uses share an input. */
  lemma LayoutInjective(id: Bytes, x: Hashed, id': Bytes, y: Hashed)
    requires |id| == |id'| == 16 && InRange(x) && InRange(y)
    ensures Layout(id, x) == Layout(id', y) <==> id == id' && x == y
  {
    hide Layout, U32;
    if Layout(id, x) == Layout(id', y) {
      LayoutParts(id, x);
      LayoutParts(id', y);
      assert U32(Place(x)) == U32(Place(y)) && Tag(x) == Tag(y) && Rest(x) == Rest(y);
      U32Injective(Place(x), Place(y));
      SameKind(x, y);
    }
  }

  lemma SameKind(x: Hashed, y: Hashed)
    requires InRange(x) && InRange(y) && Place(x) == Place(y) && Tag(x) == Tag(y) && Rest(x) == Rest(y)
    ensures x == y
  {
    assert Tag(x)[0] == Tag(y)[0] && Tag(x)[1] == Tag(y)[1];
    match x {
      case ChainStep(_, _, j, tmp) =>
        assert y.ChainStep?;
        assert Rest(x)[0] == j && Rest(y)[0] == y.j && Rest(x)[1..] == tmp && Rest(y)[1..] == y.tmp;
      case Message(_, c, msg) =>
        assert y.Message?;
        assert Rest(x)[..32] == c && Rest(y)[..32] == y.c && Rest(x)[32..] == msg && Rest(y)[32..] == y.msg;
      case OneTimeKey(_, _) =>
      case Leaf(_, _) =>
      case Interior(_, left, right) =>
        assert y.Interior?;
        assert Rest(x)[..32] == left && Rest(y)[..32] == y.left;
        assert Rest(x)[32..] == right && Rest(y)[32..] == y.right;
    }
  }

  // ---------- the verifier hashes these inputs ----------

  lemma Be32IsU32(v: nat)
    ensures Be32(v) == U32(v)
  {
    assert Pow256(0) == 1 && Pow256(1) == 0x100 && Pow256(2) == 0x1_0000 && Pow256(3) == 0x100_0000;
  }

  lemma VerifierInputs(id: Bytes, q: nat, i: nat, j: Byte, tmp: Node, c: Node, msg: Bytes, ends: Bytes, sibling: Node)
    ensures ChainInput(id, Be32(q), i, j, tmp) == Layout(id, ChainStep(q, i, j, tmp))
    ensures id + Be32(q) + D_MESSAGE + c + msg == Layout(id, Message(q, c, msg))
    ensures id + Be32(q) + D_PUBLIC + ends == Layout(id, OneTimeKey(q, ends))
    ensures id + Be32(q) + D_LEAF + tmp == Layout(id, Leaf(q, tmp))
    ensures ParentInput(id, 2 * q, tmp, sibling) == Layout(id, Interior(q, tmp, sibling))
    ensures ParentInput(id, 2 * q + 1, tmp, sibling) == Layout(id, Interior(q, sibling, tmp))
  {
    hide Be32, U32;
    Be32IsU32(q);
    assert 2 * q / 2 == q && (2 * q + 1) / 2 == q;
    var head := id + U32(q);
    assert head + [i / 256 % 256, i % 256] + [j] + tmp == head + [i / 256 % 256, i % 256] + ([j] + tmp);
    assert head + [0x81, 0x81] + c + msg == head + [0x81, 0x81] + (c + msg);
  }

  // ---------- one-time signatures (sections 4.3 to 4.6) ----------

  /** Chain `i` of leaf `q` moved on from position `from` to position `to`. */
  function Run(h: Hash, id: Bytes, q: nat, i: nat, x: Node, from: nat, to: nat): Node
    requires from <= to < 256
    decreases (to as int) - from
  {
    if from == to then x else h(Layout(id, ChainStep(q, i, to - 1, Run(h, id, q, i, x, from, to - 1))))
  }

  lemma {:induction false} RunCompose(h: Hash, id: Bytes, q: nat, i: nat, x: Node, from: nat, mid: nat, to: nat)
    requires from <= mid <= to < 256
    ensures Run(h, id, q, i, Run(h, id, q, i, x, from, mid), mid, to) == Run(h, id, q, i, x, from, to)
    decreases (to as int) - from
  {
    if mid < to {
      RunCompose(h, id, q, i, x, from, mid, to - 1);
    }
  }

  /** By how much the bytes of a digest stay below 255, together. */
  function Missing(digest: Bytes): nat {
    if digest == [] then 0 else (255 - digest[0]) + Missing(digest[1..])
  }

  /** The digits that are signed: the digest's bytes, and two bytes of what is missing. */
  function Digit(digest: Node, i: nat): Byte
    requires i < 34
  {
    if i < 32 then digest[i] else if i == 32 then Missing(digest) / 256 % 256 else Missing(digest) % 256
  }

  /** The secret start of chain `i` of leaf `q`. */
  type Secret = (nat, nat) -> Node

  /** The ends of the first `n` chains. */
  function PublicEnds(h: Hash, id: Bytes, x: Secret, q: nat, n: nat): Bytes {
    if n == 0 then [] else PublicEnds(h, id, x, q, n - 1) + Run(h, id, q, n - 1, x(q, n - 1), 0, 255)
  }

  function LeafKey(h: Hash, id: Bytes, x: Secret, q: nat): Node {
    h(Layout(id, OneTimeKey(q, PublicEnds(h, id, x, q, 34))))
  }

  /** Each chain revealed at its digit. */
  function Revealed(h: Hash, id: Bytes, x: Secret, q: nat, digest: Node, n: nat): (y: Bytes)
    requires n <= 34
    ensures |y| == n * 32
  {
    if n == 0 then []
    else Revealed(h, id, x, q, digest, n - 1) + Run(h, id, q, n - 1, x(q, n - 1), 0, Digit(digest, n - 1))
  }

  function OneTimeSignature(h: Hash, id: Bytes, x: Secret, q: nat, c: Node, msg: Bytes): (sig: Bytes)
    ensures |sig| == 1124
  {
    [0, 0, 0, 4] + c + Revealed(h, id, x, q, h(Layout(id, Message(q, c, msg))), 34)
  }

  /** The chain ends that revealed values lead to. */
  function VerifiedEnds(h: Hash, id: Bytes, q: nat, digest: Node, y: Bytes, n: nat): Bytes
    requires n <= 34 && n * 32 <= |y|
  {
    if n == 0 then []
    else
      VerifiedEnds(h, id, q, digest, y, n - 1) +
      Run(h, id, q, n - 1, y[(n - 1) * 32..n * 32], Digit(digest, n - 1), 255)
  }

  /** The one-time key that a one-time signature leads to. */
  function KeyFrom(h: Hash, id: Bytes, q: nat, msg: Bytes, ots: Bytes): Node
    requires |ots| == 1124
  {
    var digest := h(Layout(id, Message(q, ots[4..36], msg)));
    h(Layout(id, OneTimeKey(q, VerifiedEnds(h, id, q, digest, ots[36..], 34))))
  }

  // ---------- the tree of keys (sections 5.3 and 5.4) ----------

  /** Node `r`: 1 is the root, `2 r` and `2 r + 1` the children, 1024 up the leaves. */
  function Tree(h: Hash, id: Bytes, x: Secret, r: nat): Node
    requires 1 <= r < 2048
    decreases 2048 - r
  {
    if r >= 1024 then h(Layout(id, Leaf(r, LeafKey(h, id, x, r - 1024))))
    else h(Layout(id, Interior(r, Tree(h, id, x, 2 * r), Tree(h, id, x, 2 * r + 1))))
  }

  function PublicKey(h: Hash, id: Bytes, x: Secret): Bytes {
    [0, 0, 0, 6, 0, 0, 0, 4] + id + Tree(h, id, x, 1)
  }

  function Sibling(r: nat): nat
    requires r != 0
  {
    if r % 2 == 1 then r - 1 else r + 1
  }

  function Levels(r: nat): nat {
    if r <= 1 then 0 else 1 + Levels(r / 2)
  }

  /** The siblings on the way from node `r` to the root. */
  function AuthPath(h: Hash, id: Bytes, x: Secret, r: nat): (path: Bytes)
    requires 1 <= r < 2048
    ensures |path| == 32 * Levels(r)
  {
    if r == 1 then [] else Tree(h, id, x, Sibling(r)) + AuthPath(h, id, x, r / 2)
  }

  function Signature(h: Hash, id: Bytes, x: Secret, q: nat, c: Node, msg: Bytes): Bytes
    requires q < 1024
  {
    U32(q) + OneTimeSignature(h, id, x, q, c, msg) + [0, 0, 0, 6] + AuthPath(h, id, x, 1024 + q)
  }

  /** The root that a node and a path of siblings lead to. */
  function RootFrom(h: Hash, id: Bytes, node: Node, r: nat, path: Bytes): Node
    decreases |path|
  {
    if |path| < 32 then node
    else
      var parent := if r % 2 == 1 then Interior(r / 2, path[..32], node) else Interior(r / 2, node, path[..32]);
      RootFrom(h, id, h(Layout(id, parent)), r / 2, path[32..])
  }

  /** A signature that section 5.4.2 calls valid. */
  predicate ValidSignature(h: Hash, publicKey: Bytes, msg: Bytes, sig: Bytes) {
    && |publicKey| == 56 && |sig| == 1452
    && publicKey[..8] == [0, 0, 0, 6, 0, 0, 0, 4]
    && sig[0] == 0 && sig[1] == 0 && sig[2] < 4
    && sig[4..8] == [0, 0, 0, 4] && sig[1128..1132] == [0, 0, 0, 6]
    && var id, q := publicKey[8..24], 256 * (sig[2] as int) + sig[3] as int;
    && var leaf := Leaf(1024 + q, KeyFrom(h, id, q, msg, sig[4..1128]));
    && RootFrom(h, id, h(Layout(id, leaf)), 1024 + q, sig[1132..]) == publicKey[24..]
  }

  // ---------- the signer's signatures are valid ----------

  /** The chains continued from the revealed values end where the signer's chains end. */
  lemma {:induction false} EndsMeet(h: Hash, id: Bytes, x: Secret, q: nat, digest: Node, y: Bytes, n: nat)
    requires n <= 34 && y == Revealed(h, id, x, q, digest, 34)
    ensures VerifiedEnds(h, id, q, digest, y, n) == PublicEnds(h, id, x, q, n)
  {
    hide Run;
    if n != 0 {
      EndsMeet(h, id, x, q, digest, y, n - 1);
      RevealedAt(h, id, x, q, digest, n - 1, 34);
      RunCompose(h, id, q, n - 1, x(q, n - 1), 0, Digit(digest, n - 1), 255);
    }
  }

  lemma {:induction false} RevealedAt(h: Hash, id: Bytes, x: Secret, q: nat, digest: Node, i: nat, total: nat)
    requires i < total <= 34
    ensures Revealed(h, id, x, q, digest, total)[i * 32..(i + 1) * 32] ==
            Run(h, id, q, i, x(q, i), 0, Digit(digest, i))
  {
    hide Run, Digit;
    var y, z := Revealed(h, id, x, q, digest, total), Revealed(h, id, x, q, digest, total - 1);
    if i < total - 1 {
      RevealedAt(h, id, x, q, digest, i, total - 1);
      assert y[i * 32..(i + 1) * 32] == z[i * 32..(i + 1) * 32];
    }
  }

  /** The key that an honest one-time signature leads to is the leaf's key. */
  lemma KeyFromHonest(h: Hash, id: Bytes, x: Secret, q: nat, c: Node, msg: Bytes)
    ensures KeyFrom(h, id, q, msg, OneTimeSignature(h, id, x, q, c, msg)) == LeafKey(h, id, x, q)
  {
    hide Layout, Revealed, VerifiedEnds, PublicEnds;
    var ots := OneTimeSignature(h, id, x, q, c, msg);
    var digest := h(Layout(id, Message(q, c, msg)));
    var y := Revealed(h, id, x, q, digest, 34);
    assert ots[4..36] == c && ots[36..] == y;
    EndsMeet(h, id, x, q, digest, y, 34);
  }

  /** A node and its sibling, in the order of the node's parity, hash to the parent. */
  lemma TreeParent(h: Hash, id: Bytes, x: Secret, r: nat)
    requires 1 < r < 2048
    ensures var node, sibling := Tree(h, id, x, r), Tree(h, id, x, Sibling(r));
      Tree(h, id, x, r / 2) ==
      h(Layout(id, if r % 2 == 1 then Interior(r / 2, sibling, node) else Interior(r / 2, node, sibling)))
  {
    hide Layout, LeafKey;
    var k := r / 2;
    if r % 2 == 1 {
      assert r == 2 * k + 1 && Sibling(r) == 2 * k;
    } else {
      assert r == 2 * k && Sibling(r) == 2 * k + 1;
    }
  }

  /** Climbing the authentication path recomputes every ancestor, up to the root. */
  lemma {:induction false} ClimbReachesRoot(h: Hash, id: Bytes, x: Secret, r: nat)
    requires 1 <= r < 2048
    ensures RootFrom(h, id, Tree(h, id, x, r), r, AuthPath(h, id, x, r)) == Tree(h, id, x, 1)
  {
    hide Layout, Tree;
    if r != 1 {
      var s, rest := Tree(h, id, x, Sibling(r)), AuthPath(h, id, x, r / 2);
      var path := AuthPath(h, id, x, r);
      assert path[..32] == s && path[32..] == rest;
      ClimbReachesRoot(h, id, x, r / 2);
      TreeParent(h, id, x, r);
    }
  }

  lemma {:induction false} LevelsBetween(r: nat, k: nat)
    requires Pow2(k) <= r < 2 * Pow2(k)
    ensures Levels(r) == k
  {
    if k != 0 {
      LevelsBetween(r / 2, k - 1);
    }
  }

  lemma LeafLevels(q: nat)
    requires q < 1024
    ensures Levels(1024 + q) == 10
  {
    assert Pow2(5) == 32;
    assert Pow2(10) == 1024;
    LevelsBetween(1024 + q, 10);
  }

  lemma LeafNumber(q: nat)
    requires q < 1024
    ensures var b := U32(q); b[0] == 0 && b[1] == 0 && b[2] < 4 && 256 * (b[2] as int) + b[3] as int == q
  {
  }

  /** Every signature the signer makes is valid. */
  lemma HonestValid(h: Hash, id: Bytes, x: Secret, q: nat, c: Node, msg: Bytes)
    requires |id| == 16 && q < 1024
    ensures ValidSignature(h, PublicKey(h, id, x), msg, Signature(h, id, x, q, c, msg))
  {
    hide Layout, KeyFrom, LeafKey, OneTimeSignature, RootFrom, Tree, AuthPath, U32;
    var publicKey, sig := PublicKey(h, id, x), Signature(h, id, x, q, c, msg);
    var ots, path := OneTimeSignature(h, id, x, q, c, msg), AuthPath(h, id, x, 1024 + q);
    LeafLevels(q);
    LeafNumber(q);
    assert publicKey[..8] == [0, 0, 0, 6, 0, 0, 0, 4] && publicKey[8..24] == id;
    assert publicKey[24..] == Tree(h, id, x, 1);
    assert sig[..4] == U32(q) && sig[4..1128] == ots && sig[1128..1132] == [0, 0, 0, 6] && sig[1132..] == path;
    assert ots[..4] == [0, 0, 0, 4] by { StartsWithType(h, id, x, q, c, msg); }
    assert sig[4..8] == ots[..4];
    KeyFromHonest(h, id, x, q, c, msg);
    LeafOfTree(h, id, x, q);
    ClimbReachesRoot(h, id, x, 1024 + q);
  }

  lemma StartsWithType(h: Hash, id: Bytes, x: Secret, q: nat, c: Node, msg: Bytes)
    ensures OneTimeSignature(h, id, x, q, c, msg)[..4] == [0, 0, 0, 4]
  {
    hide Layout, Revealed;
  }

  lemma LeafOfTree(h: Hash, id: Bytes, x: Secret, q: nat)
    requires q < 1024
    ensures Tree(h, id, x, 1024 + q) == h(Layout(id, Leaf(1024 + q, LeafKey(h, id, x, q))))
  {
    hide Layout, LeafKey;
  }

  // ---------- the verifier accepts exactly the valid signatures ----------

  lemma {:induction false} RunIsChain(h: Hash, id: Bytes, q: nat, i: nat, x: Node, from: nat, to: nat)
    requires from <= to < 256
    ensures Run(h, id, q, i, x, from, to) == Chain(h, id, Be32(q), i, x, from, to)
    decreases (to as int) - from
  {
    hide Layout, Be32, ChainInput;
    if from < to {
      RunIsChain(h, id, q, i, x, from, to - 1);
      var before := Run(h, id, q, i, x, from, to - 1);
      ChainCompose(h, id, Be32(q), i, x, from, to - 1, to);
      ChainStepInput(id, q, i, to - 1, before);
      assert Chain(h, id, Be32(q), i, before, to - 1, to) == h(ChainInput(id, Be32(q), i, to - 1, before));
    }
  }

  lemma ChainStepInput(id: Bytes, q: nat, i: nat, j: Byte, tmp: Node)
    ensures ChainInput(id, Be32(q), i, j, tmp) == Layout(id, ChainStep(q, i, j, tmp))
  {
    hide Layout, Be32, ChainInput;
    VerifierInputs(id, q, i, j, tmp, tmp, [], [], tmp);
  }

  lemma {:induction false} MissingSnoc(a: Bytes, x: Byte)
    ensures Missing(a + [x]) == Missing(a) + (255 - x)
  {
    if a != [] {
      assert (a + [x])[1..] == a[1..] + [x];
      MissingSnoc(a[1..], x);
    } else {
      assert (a + [x])[1..] == [];
    }
  }

  lemma {:induction false} ChecksumIsMissing(digest: Bytes)
    ensures Checksum(digest) == Missing(digest)
  {
    if digest != [] {
      var n := |digest| - 1;
      ChecksumIsMissing(digest[..n]);
      MissingSnoc(digest[..n], digest[n]);
      assert digest == digest[..n] + [digest[n]];
    }
  }

  /** The verifier's digits are those of the standard. */
  lemma DigitsAre(digest: Node, i: nat)
    requires i < 34
    ensures Digits(digest)[i] == Digit(digest, i)
  {
    hide Checksum, Missing;
    ChecksumIsMissing(digest);
  }

  lemma {:induction false} EndsAgree(h: Hash, id: Bytes, q: nat, digest: Node, y: Bytes, n: nat)
    requires n <= 34 && n * 32 <= |y|
    ensures ChainEnds(h, id, Be32(q), Digits(digest), y, n) == VerifiedEnds(h, id, q, digest, y, n)
  {
    hide Be32, Run, Chain, Digits, Digit;
    if n != 0 {
      EndsAgree(h, id, q, digest, y, n - 1);
      DigitsAre(digest, n - 1);
      RunIsChain(h, id, q, n - 1, y[(n - 1) * 32..n * 32], Digit(digest, n - 1), 255);
    }
  }

  /** The verifier's candidate is the key that the one-time signature leads to. */
  lemma CandidateIsKey(h: Hash, id: Bytes, q: nat, msg: Bytes, ots: Bytes)
    requires |ots| == 1124
    ensures Candidate(h, id, Be32(q), msg, ots) ==
            if ots[..4] == [0, 0, 0, 4] then Some(KeyFrom(h, id, q, msg, ots)) else None
  {
    hide Layout, Be32, Digits, ChainEnds, VerifiedEnds, LoadBe32;
    var c, y := ots[4..36], ots[36..];
    LoadedIs(ots[..4], 4);
    VerifierInputs(id, q, 0, 0, c, c, msg, [], c);
    var digest := h(Layout(id, Message(q, c, msg)));
    assert MessageHash(h, id, Be32(q), c, msg) == digest;
    EndsAgree(h, id, q, digest, y, 34);
    VerifierInputs(id, q, 0, 0, c, c, msg, VerifiedEnds(h, id, q, digest, y, 34), c);
  }

  lemma LoadedIs(b: Bytes, v: nat)
    requires |b| == 4 && v < 0x1_0000_0000
    ensures LoadBe32(b) == v <==> b == U32(v)
    ensures v < 256 ==> U32(v) == [0, 0, 0, v]
  {
    BytesMakeWord(v);
    if LoadBe32(b) == v {
      assert v / 0x100 == (b[0] as int) * 0x1_0000 + (b[1] as int) * 0x100 + b[2] as int;
      assert v / 0x1_0000 == (b[0] as int) * 0x100 + b[1] as int;
      assert v / 0x100_0000 == b[0];
    }
  }

  lemma {:induction false} ClimbAgrees(h: Hash, id: Bytes, node: Node, r: nat, path: Bytes)
    ensures Climb(h, id, node, r, path) == RootFrom(h, id, node, r, path)
    decreases |path|
  {
    hide Layout, Be32, ParentInput;
    if |path| >= 32 {
      VerifierInputs(id, r / 2, 0, 0, node, node, [], [], path[..32]);
      assert r == if r % 2 == 1 then 2 * (r / 2) + 1 else 2 * (r / 2);
      ClimbAgrees(h, id, h(ParentInput(id, r, node, path[..32])), r / 2, path[32..]);
    }
  }

  /** For every hash function, key, message and signature the verifier accepts what the standard calls valid. */
  lemma AcceptsIff(h: Hash, publicKey: Bytes, msg: Bytes, sig: Bytes)
    ensures Accepts(h, publicKey, msg, sig) <==> ValidSignature(h, publicKey, msg, sig)
  {
    hide Layout, Be32, Candidate, Climb, RootFrom, KeyFrom, LoadBe32;
    if |publicKey| == 56 && |sig| == 1452 {
      var id, ots := publicKey[8..24], sig[4..1128];
      TypesAre(publicKey, sig);
      LeafIs(sig);
      var q := LoadBe32(sig[..4]);
      if q < 1024 {
        CandidateIsKey(h, id, q, msg, ots);
        var key := KeyFrom(h, id, q, msg, ots);
        assert ots[..4] == sig[4..8];
        VerifierInputs(id, 1024 + q, 0, 0, key, key, [], [], key);
        ClimbAgrees(h, id, LeafHash(h, id, 1024 + q, key), 1024 + q, sig[1132..]);
      }
    }
  }

  lemma TypesAre(publicKey: Bytes, sig: Bytes)
    requires |publicKey| == 56 && |sig| == 1452
    ensures LoadBe32(publicKey[..4]) == LMS_TYPE && LoadBe32(publicKey[4..8]) == LMOTS_TYPE
       <==> publicKey[..8] == [0, 0, 0, 6, 0, 0, 0, 4]
    ensures LoadBe32(sig[1128..1132]) == LMS_TYPE <==> sig[1128..1132] == [0, 0, 0, 6]
  {
    hide LoadBe32, U32;
    LoadedIs(publicKey[..4], 6);
    LoadedIs(publicKey[4..8], 4);
    LoadedIs(sig[1128..1132], 6);
    assert publicKey[..8] == publicKey[..4] + publicKey[4..8];
    if publicKey[..8] == [0, 0, 0, 6, 0, 0, 0, 4] {
      assert publicKey[..4] == publicKey[..8][..4] && publicKey[4..8] == publicKey[..8][4..];
    }
  }

  lemma LeafIs(sig: Bytes)
    requires |sig| == 1452
    ensures LoadBe32(sig[..4]) < 1024 <==> sig[0] == 0 && sig[1] == 0 && sig[2] < 4
    ensures LoadBe32(sig[..4]) < 1024 ==> LoadBe32(sig[..4]) == 256 * (sig[2] as int) + sig[3] as int
  {
  }

  /** So every signature the signer makes is accepted. */
  lemma HonestAccepted(h: Hash, id: Bytes, x: Secret, q: nat, c: Node, msg: Bytes)
    requires |id| == 16 && q < 1024
    ensures Accepts(h, PublicKey(h, id, x), msg, Signature(h, id, x, q, c, msg))
  {
    hide ValidSignature, Accepts, PublicKey, Signature;
    HonestValid(h, id, x, q, c, msg);
    AcceptsIff(h, PublicKey(h, id, x), msg, Signature(h, id, x, q, c, msg));
  }
}
