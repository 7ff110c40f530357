/**
 The LMS signature verifier (LMS_SHA256_M32_H10 with LMOTS_SHA256_N32_W8), over an arbitrary hash
 function with 32-byte results.
 */
module Lms {
  import opened Octets
  import opened Sha256
  import opened StreamHash
  import opened Wrappers

  type Node = s: Bytes | |s| == 32 witness seq(32, _ => 0)
  type Hash = Bytes -> Node

  const LMS_TYPE: nat := 6
  const LMOTS_TYPE: nat := 4
  const P: nat := 34
  const HEIGHT: nat := 10
  const LEAVES: nat := 1024
  const PUBLIC_KEY_LEN: nat := 4 + 4 + 16 + 32
  const LMOTS_SIG_LEN: nat := 4 + 32 + 34 * 32
  const LMS_SIG_LEN: nat := 4 + LMOTS_SIG_LEN + 4 + 10 * 32

  const D_PUBLIC: Bytes := [0x80, 0x80]
  const D_MESSAGE: Bytes := [0x81, 0x81]
  const D_LEAF: Bytes := [0x82, 0x82]
  const D_INTERIOR: Bytes := [0x83, 0x83]

  // ---------- big-endian numbers ----------

  function Be16(v: nat): Bytes {
    [v / 256 % 256, v % 256]
  }

  function LoadBe32(p: Bytes): nat
    requires |p| == 4
  {
    (p[0] as int) * 0x100_0000 + (p[1] as int) * 0x1_0000 + (p[2] as int) * 0x100 + p[3] as int
  }

  lemma LoadStored(v: nat)
    requires v < 0x1_0000_0000
    ensures LoadBe32(Be32(v)) == v
  {
    assert Pow256(0) == 1 && Pow256(1) == 0x100 && Pow256(2) == 0x1_0000 && Pow256(3) == 0x100_0000;
    var a, b, c := v / 0x100, v / 0x1_0000, v / 0x100_0000;
    assert a / 0x100 == b && b / 0x100 == c;
  }

  // ---------- the one-time signature's digits ----------

  function Checksum(digest: Bytes): nat {
    if digest == [] then 0 else Checksum(digest[..|digest| - 1]) + (255 - digest[|digest| - 1])
  }

  /** The digits a signature reveals chains at: the digest, then its checksum in two bytes. */
  function Digits(digest: Node): (d: Bytes)
    ensures |d| == P
  {
    digest + Be16(Checksum(digest))
  }

  lemma {:induction false} ChecksumBound(digest: Bytes)
    ensures Checksum(digest) <= 255 * |digest|
  {
    if digest != [] {
      ChecksumBound(digest[..|digest| - 1]);
    }
  }

  /** The checksum never overflows its two bytes. */
  lemma ChecksumFits(digest: Node)
    ensures Checksum(digest) < 0x1_0000
    ensures (Digits(digest)[32] as int) * 256 + Digits(digest)[33] as int == Checksum(digest)
  {
    ChecksumBound(digest);
  }

  ghost predicate BelowOrEqual(a: Bytes, b: Bytes) {
    |a| == |b| && forall i :: 0 <= i < |a| ==> a[i] <= b[i]
  }

  /** A larger digest has a smaller checksum. */
  lemma {:induction false} ChecksumAntitone(a: Bytes, b: Bytes)
    requires BelowOrEqual(a, b)
    ensures Checksum(b) <= Checksum(a)
    ensures a != b ==> Checksum(b) < Checksum(a)
  {
    if a != [] {
      var n := |a| - 1;
      ChecksumAntitone(a[..n], b[..n]);
      assert a == a[..n] + [a[n]] && b == b[..n] + [b[n]];
    }
  }

  /** No digit vector lies below another: revealing the chains of one never reveals those of another. */
  lemma DigitsAntichain(a: Node, b: Node)
    requires a != b
    ensures !BelowOrEqual(Digits(a), Digits(b))
  {
    if BelowOrEqual(Digits(a), Digits(b)) {
      var da, db := Digits(a), Digits(b);
      assert forall i :: 0 <= i < 32 ==> da[i] == a[i] && db[i] == b[i];
      ChecksumAntitone(a, b);
      ChecksumFits(a);
      ChecksumFits(b);
      assert false;
    }
  }

  // ---------- hash chains ----------

  function ChainInput(id: Bytes, q: Bytes, i: nat, j: nat, tmp: Bytes): Bytes
    requires j < 256
  {
    id + q + Be16(i) + [j] + tmp
  }

  /** Chain `i` continued from position `from` to position `to`. */
  function Chain(h: Hash, id: Bytes, q: Bytes, i: nat, tmp: Node, from: nat, to: nat): Node
    requires from <= to < 256
    decreases (to as int) - from
  {
    if from == to then tmp else Chain(h, id, q, i, h(ChainInput(id, q, i, from, tmp)), from + 1, to)
  }

  lemma {:induction false} ChainCompose(h: Hash, id: Bytes, q: Bytes, i: nat, tmp: Node, from: nat, mid: nat, to: nat)
    requires from <= mid <= to < 256
    ensures Chain(h, id, q, i, Chain(h, id, q, i, tmp, from, mid), mid, to) == Chain(h, id, q, i, tmp, from, to)
    decreases mid - from
  {
    if from < mid {
      ChainCompose(h, id, q, i, h(ChainInput(id, q, i, from, tmp)), from + 1, mid, to);
    }
  }

  // ---------- what the verifier computes ----------

  function MessageHash(h: Hash, id: Bytes, q: Bytes, c: Bytes, msg: Bytes): Node {
    h(id + q + D_MESSAGE + c + msg)
  }

  /** The ends of the first `n` chains, continued from the values in `y`. */
  function ChainEnds(h: Hash, id: Bytes, q: Bytes, digits: Bytes, y: Bytes, n: nat): (ends: Bytes)
    requires n <= |digits| && n * 32 <= |y|
    ensures |ends| == n * 32
  {
    if n == 0 then []
    else ChainEnds(h, id, q, digits, y, n - 1) + Chain(h, id, q, n - 1, y[(n - 1) * 32..n * 32], digits[n - 1], 255)
  }

  function PublicHash(h: Hash, id: Bytes, q: Bytes, ends: Bytes): Node {
    h(id + q + D_PUBLIC + ends)
  }

  /** The one-time public key a one-time signature leads to. */
  function Candidate(h: Hash, id: Bytes, q: Bytes, msg: Bytes, sig: Bytes): Option<Node> {
    if |sig| != LMOTS_SIG_LEN || LoadBe32(sig[..4]) != LMOTS_TYPE then None
    else
      var digits := Digits(MessageHash(h, id, q, sig[4..36], msg));
      Some(PublicHash(h, id, q, ChainEnds(h, id, q, digits, sig[36..], P)))
  }

  function LeafHash(h: Hash, id: Bytes, r: nat, key: Node): Node {
    h(id + Be32(r) + D_LEAF + key)
  }

  /** An odd node is the right child of its parent. */
  function ParentInput(id: Bytes, child: nat, node: Node, sibling: Bytes): Bytes {
    id + Be32(child / 2) + D_INTERIOR + (if child % 2 == 1 then sibling + node else node + sibling)
  }

  /** The node reached from node `r` by climbing along `path`, 32 bytes a level. */
  function Climb(h: Hash, id: Bytes, node: Node, r: nat, path: Bytes): Node
    decreases |path|
  {
    if |path| < 32 then node
    else Climb(h, id, h(ParentInput(id, r, node, path[..32])), r / 2, path[32..])
  }

  predicate Accepts(h: Hash, publicKey: Bytes, msg: Bytes, sig: Bytes) {
    && |publicKey| == PUBLIC_KEY_LEN && |sig| == LMS_SIG_LEN
    && LoadBe32(publicKey[..4]) == LMS_TYPE && LoadBe32(publicKey[4..8]) == LMOTS_TYPE
    && LoadBe32(sig[4 + LMOTS_SIG_LEN..8 + LMOTS_SIG_LEN]) == LMS_TYPE
    && var id, q := publicKey[8..24], LoadBe32(sig[..4]);
    && q < LEAVES
    && var key := Candidate(h, id, Be32(q), msg, sig[4..4 + LMOTS_SIG_LEN]);
    && key.Some?
    && Climb(h, id, LeafHash(h, id, LEAVES + q, key.value), LEAVES + q, sig[8 + LMOTS_SIG_LEN..]) == publicKey[24..]
  }

  // ---------- the verifier's loops ----------

  method LmotsCandidate(h: Hash, msg: Bytes, sig: Bytes, id: Bytes, q: Bytes) returns (key: Option<Node>)
    ensures key == Candidate(h, id, q, msg, sig)
  {
    hide Chain, ChainInput, Checksum, LoadBe32;
    if |sig| != LMOTS_SIG_LEN || LoadBe32(sig[..4]) != LMOTS_TYPE {
      return None;
    }
    var c, y := sig[4..36], sig[36..];
    var qHash := h(id + q + D_MESSAGE + c + msg);
    var checksum := SumOfComplements(qHash);
    ChecksumFits(qHash);
    var digits := qHash + Be16(checksum % 0x1_0000);
    var hashed := [];
    for i := 0 to P
      invariant hashed == ChainEnds(h, id, q, digits, y, i)
    {
      var tmp := HashToEnd(h, id, q, i, y[i * 32..(i + 1) * 32], digits[i]);
      hashed := hashed + tmp;
    }
    key := Some(h(id + q + D_PUBLIC + hashed));
  }

  method SumOfComplements(digest: Node) returns (checksum: nat)
    ensures checksum == Checksum(digest)
  {
    checksum := 0;
    for i := 0 to |digest|
      invariant checksum == Checksum(digest[..i])
    {
      assert digest[..i + 1][..i] == digest[..i];
      checksum := checksum + (0xff - digest[i]);
    }
    assert digest[..|digest|] == digest;
  }

  method HashToEnd(h: Hash, id: Bytes, q: Bytes, i: nat, start: Node, digit: Byte) returns (tmp: Node)
    ensures tmp == Chain(h, id, q, i, start, digit, 255)
  {
    tmp := start;
    var j: nat := digit;
    while j < 0xff
      invariant digit <= j <= 0xff
      invariant Chain(h, id, q, i, tmp, j, 255) == Chain(h, id, q, i, start, digit, 255)
    {
      tmp := h(id + q + Be16(i) + [j] + tmp);
      j := j + 1;
    }
  }

  /** Accepts exactly the signatures whose candidate key climbs to the root in the public key. */
  method Verify(h: Hash, publicKey: Bytes, msg: Bytes, sig: Bytes) returns (ok: bool)
    ensures ok <==> Accepts(h, publicKey, msg, sig)
  {
    hide LoadBe32, Candidate, Climb, Be32;
    if |publicKey| != PUBLIC_KEY_LEN || |sig| != LMS_SIG_LEN {
      return false;
    }
    if LoadBe32(publicKey[..4]) != LMS_TYPE || LoadBe32(publicKey[4..8]) != LMOTS_TYPE {
      return false;
    }
    var id, publicRoot := publicKey[8..24], publicKey[24..];
    if LoadBe32(sig[4 + LMOTS_SIG_LEN..8 + LMOTS_SIG_LEN]) != LMS_TYPE {
      return false;
    }
    var q := LoadBe32(sig[..4]);
    if q >= LEAVES {
      return false;
    }
    var key := LmotsCandidate(h, msg, sig[4..4 + LMOTS_SIG_LEN], id, Be32(q));
    if key == None {
      return false;
    }
    var leaf := h(id + Be32(LEAVES + q) + D_LEAF + key.value);
    var node := ClimbPath(h, id, leaf, LEAVES + q, sig[8 + LMOTS_SIG_LEN..]);
    ok := node == publicRoot;
  }

  /** The path loop: each sibling goes before or after the node by the parity of the node's number. */
  method ClimbPath(h: Hash, id: Bytes, leaf: Node, leafId: nat, path: Bytes) returns (node: Node)
    requires |path| == HEIGHT * 32
    ensures node == Climb(h, id, leaf, leafId, path)
  {
    hide Be32;
    node := leaf;
    var currId := leafId;
    for height := 0 to HEIGHT
      invariant Climb(h, id, node, currId, path[height * 32..]) == Climb(h, id, leaf, leafId, path)
    {
      var childId := currId;
      var sibling := path[height * 32..(height + 1) * 32];
      assert path[height * 32..][..32] == sibling;
      assert path[height * 32..][32..] == path[(height + 1) * 32..];
      currId := currId / 2;
      if childId % 2 == 1 {
        node := h(id + Be32(currId) + D_INTERIOR + (sibling + node));
      } else {
        node := h(id + Be32(currId) + D_INTERIOR + (node + sibling));
      }
    }
  }
}
