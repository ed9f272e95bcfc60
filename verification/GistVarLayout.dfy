/** The bytes of a variable-length key: a header, the lower bound and, in an inner key, padding and the upper bound. */
module GistVarLayout {
  import opened ByteOrder
  import opened GistVarKey
  import opened Wrappers

  /** VARHDRSZ. */
  const HEADER := 4

  /** MaxAllocSize: palloc refuses anything larger, and any smaller size fits a four-byte header. */
  const MAX_ALLOC := 0x3fff_ffff

  /** INTALIGN. */
  function IntAlign(n: nat): (r: nat)
    ensures n <= r < n + 4 && r % 4 == 0
  {
    (n + 3) / 4 * 4
  }

  lemma IntAlignMonotone(a: nat, b: nat)
    requires a <= b
    ensures IntAlign(a) <= IntAlign(b)
  {
  }

  /** SET_VARSIZE on a little-endian machine: the size shifted left by two bits. */
  function SizeBytes(size: nat): (b: Bytes)
    requires size <= MAX_ALLOC
    ensures |b| == HEADER
  {
    var w := size * 4;
    [w % 256, w / 256 % 256, w / 256 / 256 % 256, w / 256 / 256 / 256]
  }

  /** The four bytes are the size times four, the least significant first. */
  lemma SizeBytesMean(size: nat)
    requires size <= MAX_ALLOC
    ensures var b := SizeBytes(size);
      b[0] as int + 0x100 * b[1] as int + 0x1_0000 * b[2] as int + 0x100_0000 * b[3] as int == 4 * size
  {
  }

  /** VARSIZE of the datum that starts at `at`. */
  function VarSize(b: Bytes, at: nat): nat
    requires at + HEADER <= |b|
  {
    (b[at] as int + 256 * (b[at + 1] as int + 256 * (b[at + 2] as int + 256 * b[at + 3] as int))) / 4
  }

  function Varlena(data: Bytes): (b: Bytes)
    requires HEADER + |data| <= MAX_ALLOC
    ensures |b| == HEADER + |data|
  {
    SizeBytes(HEADER + |data|) + data
  }

  function Zeros(n: nat): (b: Bytes)
    ensures |b| == n
  {
    seq(n, _ => 0)
  }

  function NodeSize(lower: Bytes, upper: Bytes): nat {
    HEADER + IntAlign(HEADER + |lower|) + HEADER + |upper|
  }

  /** An inner key. */
  function EncodeNode(lower: Bytes, upper: Bytes): (b: Bytes)
    requires NodeSize(lower, upper) <= MAX_ALLOC
    ensures |b| == NodeSize(lower, upper)
  {
    SizeBytes(NodeSize(lower, upper)) + Varlena(lower)
    + Zeros(IntAlign(HEADER + |lower|) - (HEADER + |lower|)) + Varlena(upper)
  }

  /** A leaf key: one datum behind the header. */
  function EncodeLeaf(data: Bytes): (b: Bytes)
    requires 2 * HEADER + |data| <= MAX_ALLOC
    ensures |b| == 2 * HEADER + |data|
  {
    SizeBytes(2 * HEADER + |data|) + Varlena(data)
  }

  /** What gbt_var_key_readable gives: the two bounds, and whether both pointers are the same (a leaf). */
  datatype Readable = Readable(key: VarKey, isLeaf: bool)

  /** The datum at `at`, when it lies within the bytes at hand. */
  function DatumAt(b: Bytes, at: nat): Option<Bytes> {
    if at + HEADER <= |b| && HEADER <= VarSize(b, at) && at + VarSize(b, at) <= |b|
    then Some(b[at + HEADER..at + VarSize(b, at)])
    else None
  }

  /** gbt_var_key_readable; None when the sizes in the headers point outside the key. */
  function Read(k: Bytes): Option<Readable> {
    var lower := DatumAt(k, HEADER);
    if |k| < HEADER || lower.None? then None
    else if VarSize(k, 0) > HEADER + VarSize(k, HEADER) then
      var upper := DatumAt(k, HEADER + IntAlign(VarSize(k, HEADER)));
      if upper.None? then None else Some(Readable(VarKey(lower.value, upper.value), false))
    else Some(Readable(VarKey(lower.value, lower.value), true))
  }

  lemma SizeRoundTrip(b: Bytes, at: nat, size: nat)
    requires size <= MAX_ALLOC && at + HEADER <= |b| && b[at..at + HEADER] == SizeBytes(size)
    ensures VarSize(b, at) == size
  {
    var s := SizeBytes(size);
    assert b[at] == s[0] && b[at + 1] == s[1] && b[at + 2] == s[2] && b[at + 3] == s[3];
  }

  lemma DatumRoundTrip(b: Bytes, at: nat, data: Bytes)
    requires HEADER + |data| <= MAX_ALLOC && at + HEADER + |data| <= |b|
    requires b[at..at + HEADER + |data|] == Varlena(data)
    ensures DatumAt(b, at) == Some(data) && VarSize(b, at) == HEADER + |data|
  {
    var v := Varlena(data);
    assert b[at..at + HEADER] == v[..HEADER] == SizeBytes(HEADER + |data|);
    SizeRoundTrip(b, at, HEADER + |data|);
    assert b[at + HEADER..at + HEADER + |data|] == v[HEADER..] == data;
  }

  /** Where the parts of an inner key stand: the lower bound behind the header, the upper one at the next multiple of
      four behind it. */
  lemma NodeLayout(lower: Bytes, upper: Bytes)
    requires NodeSize(lower, upper) <= MAX_ALLOC
    ensures var k, at := EncodeNode(lower, upper), HEADER + IntAlign(HEADER + |lower|);
      && k[0..HEADER] == SizeBytes(NodeSize(lower, upper))
      && k[HEADER..HEADER + HEADER + |lower|] == Varlena(lower)
      && at + HEADER + |upper| == |k| && k[at..at + HEADER + |upper|] == Varlena(upper)
  {
  }

  /** Reading an inner key gives back both bounds, whatever their lengths, and never takes it for a leaf. */
  lemma NodeRoundTrip(lower: Bytes, upper: Bytes)
    requires NodeSize(lower, upper) <= MAX_ALLOC
    ensures Read(EncodeNode(lower, upper)) == Some(Readable(VarKey(lower, upper), false))
  {
    var k := EncodeNode(lower, upper);
    var at := HEADER + IntAlign(HEADER + |lower|);
    NodeLayout(lower, upper);
    SizeRoundTrip(k, 0, NodeSize(lower, upper));
    DatumRoundTrip(k, HEADER, lower);
    DatumRoundTrip(k, at, upper);
  }

  /** Reading a leaf key gives the datum as both bounds and recognises the leaf. */
  lemma LeafRoundTrip(data: Bytes)
    requires 2 * HEADER + |data| <= MAX_ALLOC
    ensures Read(EncodeLeaf(data)) == Some(Readable(VarKey(data, data), true))
  {
    var k := EncodeLeaf(data);
    assert k[0..HEADER] == SizeBytes(2 * HEADER + |data|);
    SizeRoundTrip(k, 0, 2 * HEADER + |data|);
    assert k[HEADER..HEADER + HEADER + |data|] == Varlena(data);
    DatumRoundTrip(k, HEADER, data);
  }

  /** The bytes after a copy of `src` to position `at`. */
  function Overwrite(b: Bytes, at: nat, src: Bytes): (r: Bytes)
    requires at + |src| <= |b|
    ensures |r| == |b|
  {
    b[..at] + src + b[at + |src|..]
  }

  method MemCpy(dst: array<byte>, at: nat, src: Bytes)
    requires at + |src| <= dst.Length
    modifies dst
    ensures dst[..] == Overwrite(old(dst[..]), at, src)
  {
    var i := 0;
    while i < |src|
      invariant 0 <= i <= |src|
      invariant forall k :: 0 <= k < dst.Length ==> dst[k] == if at <= k < at + i then src[k - at] else old(dst[k])
    {
      dst[at + i] := src[i];
      i := i + 1;
    }
    assert dst[..] == Overwrite(old(dst[..]), at, src);
  }

  /** Three copies into zeroed memory: what palloc0 and the memcpy calls of a key constructor leave behind. */
  method Assemble(size: nat, at1: nat, src1: Bytes, at2: nat, src2: Bytes, at3: nat, src3: Bytes)
      returns (a: array<byte>)
    requires at1 + |src1| <= size && at2 + |src2| <= size && at3 + |src3| <= size
    ensures fresh(a)
    ensures a[..] == Overwrite(Overwrite(Overwrite(Zeros(size), at1, src1), at2, src2), at3, src3)
  {
    a := new byte[size](_ => 0);
    assert a[..] == Zeros(size);
    MemCpy(a, at1, src1);
    MemCpy(a, at2, src2);
    MemCpy(a, at3, src3);
  }

  /** The copies land side by side, with zeros in the gap between the two data, when the header comes last. */
  lemma HeaderLast(h: Bytes, l: Bytes, gap: nat, u: Bytes)
    ensures Overwrite(Overwrite(Overwrite(Zeros(|h| + |l| + gap + |u|), |h|, l), |h| + |l| + gap, u), 0, h)
         == h + l + Zeros(gap) + u
  {
  }

  /** The same when the header comes first. */
  lemma HeaderFirst(h: Bytes, l: Bytes, gap: nat, u: Bytes)
    ensures Overwrite(Overwrite(Overwrite(Zeros(|h| + |l| + gap + |u|), 0, h), |h|, l), |h| + |l| + gap, u)
         == h + l + Zeros(gap) + u
  {
    var z := Zeros(|h| + |l| + gap + |u|);
    assert Overwrite(Overwrite(z, 0, h), |h|, l) == h + l + Zeros(gap + |u|);
  }

  /** gbt_var_key_copy: zeroed memory, the two data copied in, the total size last; None when palloc refuses. */
  method KeyCopy(u: VarKey) returns (r: Option<array<byte>>)
    ensures r.Some? <==> NodeSize(u.lower, u.upper) <= MAX_ALLOC
    ensures r.Some? ==> fresh(r.value) && r.value[..] == EncodeNode(u.lower, u.upper)
  {
    var size, lowerSize := NodeSize(u.lower, u.upper), HEADER + |u.lower|;
    if size > MAX_ALLOC {
      return None;
    }
    var a := Assemble(size, HEADER, Varlena(u.lower),
      HEADER + IntAlign(lowerSize), Varlena(u.upper), 0, SizeBytes(size));
    HeaderLast(SizeBytes(size), Varlena(u.lower), IntAlign(lowerSize) - lowerSize, Varlena(u.upper));
    return Some(a);
  }

  /** The total size first, then each datum under its own size: how gbt_var_node_truncate writes its result. */
  method NewNode(lower: Bytes, upper: Bytes) returns (r: Option<array<byte>>)
    ensures r.Some? <==> NodeSize(lower, upper) <= MAX_ALLOC
    ensures r.Some? ==> fresh(r.value) && r.value[..] == EncodeNode(lower, upper)
  {
    var size, lowerSize := NodeSize(lower, upper), HEADER + |lower|;
    if size > MAX_ALLOC {
      return None;
    }
    var a := Assemble(size, 0, SizeBytes(size), HEADER, Varlena(lower), HEADER + IntAlign(lowerSize), Varlena(upper));
    HeaderFirst(SizeBytes(size), Varlena(lower), IntAlign(lowerSize) - lowerSize, Varlena(upper));
    return Some(a);
  }

  /** gbt_var_node_truncate; None when palloc refuses. */
  method NodeTruncate(node: Bytes, prefixLength: nat) returns (r: Option<array<byte>>)
    requires Read(node).Some?
    ensures var cut := Truncate(Read(node).value.key, prefixLength);
      && (r.Some? <==> NodeSize(cut.lower, cut.upper) <= MAX_ALLOC)
      && (r.Some? ==> fresh(r.value) && r.value[..] == EncodeNode(cut.lower, cut.upper))
  {
    var key := Read(node).value.key;
    var len1 := if |key.lower| < prefixLength + 1 then |key.lower| else prefixLength + 1;
    var len2 := if |key.upper| < prefixLength + 1 then |key.upper| else prefixLength + 1;
    assert VarKey(key.lower[..len1], key.upper[..len2]) == Truncate(key, prefixLength);
    r := NewNode(key.lower[..len1], key.upper[..len2]);
  }

  /** A truncated key reads back as the two bounds, each cut to one byte past the given prefix length. */
  lemma TruncateRoundTrip(key: VarKey, prefixLength: nat)
    requires NodeSize(key.lower, key.upper) <= MAX_ALLOC
    ensures var cut := Truncate(key, prefixLength);
      && NodeSize(cut.lower, cut.upper) <= NodeSize(key.lower, key.upper)
      && Read(EncodeNode(cut.lower, cut.upper)) == Some(Readable(cut, false))
  {
    var cut := Truncate(key, prefixLength);
    IntAlignMonotone(HEADER + |cut.lower|, HEADER + |key.lower|);
    NodeRoundTrip(cut.lower, cut.upper);
  }
}
