/**
 Blob verification (`verify_blob_hashes`, `padded_blob_for` and
 `compute_blob_opening_commitment` in crates/airbender_verifier/src/commitment.rs). Keccak-256
 is a parameter: any function from byte strings to 32-byte strings.
 */
module Blobs {
  import opened Wrappers

  type Byte = b: nat | b < 256

  type Bytes = seq<Byte>

  /** Keccak-256. */
  type Keccak = Bytes -> Bytes

  ghost predicate IsDigest(keccak: Keccak) {
    forall b :: |keccak(b)| == 32
  }

  const BLOB_CHUNK_SIZE: nat := 31
  const ELEMENTS_PER_4844_BLOCK: nat := 4096
  const BYTES_PER_BLOB: nat := BLOB_CHUNK_SIZE * ELEMENTS_PER_4844_BLOCK
  const MODULUS: nat := 0x73eda753299d7d483339d80809a1d80553bda402fffe5bfeffffffff00000001

  const ZERO: Bytes := seq(32, _ => 0)

  datatype BlobHash = BlobHash(commitment: Bytes, linearHash: Bytes)

  datatype BlobError = LengthMismatch | CommitmentWithoutBlob | NoPubdata | LinearHashMismatch | OpeningMismatch

  function Zeros(n: nat): Bytes {
    seq(n, _ => 0)
  }

  /** The `i`-th blob of the pubdata, zero-padded to full size, if the pubdata reaches it. */
  function PaddedBlobFor(pubdata: Bytes, i: nat): (blob: Option<Bytes>)
    ensures blob.Some? <==> i * BYTES_PER_BLOB < |pubdata|
    ensures blob.Some? ==> |blob.value| == BYTES_PER_BLOB
    ensures blob.Some? ==> forall k :: 0 <= k < BYTES_PER_BLOB ==>
      blob.value[k] == if i * BYTES_PER_BLOB + k < |pubdata| then pubdata[i * BYTES_PER_BLOB + k] else 0
  {
    var start := i * BYTES_PER_BLOB;
    if start >= |pubdata| then None
    else
      var end := if start + BYTES_PER_BLOB <= |pubdata| then start + BYTES_PER_BLOB else |pubdata|;
      Some(pubdata[start..end] + Zeros(BYTES_PER_BLOB - (end - start)))
  }

  // ----- the opening value

  function LittleEndian(bytes: Bytes): nat {
    if bytes == [] then 0 else bytes[0] + 256 * LittleEndian(bytes[1..])
  }

  function BigEndian(bytes: Bytes): nat {
    if bytes == [] then 0 else 256 * BigEndian(bytes[..|bytes| - 1]) + bytes[|bytes| - 1]
  }

  function BigEndianBytes(value: nat, n: nat): Bytes {
    if n == 0 then [] else BigEndianBytes(value / 256, n - 1) + [value % 256]
  }

  function Pow(x: nat, n: nat): nat {
    if n == 0 then 1 else x * Pow(x, n - 1)
  }

  /** Little-endian: a byte appended counts by its position. */
  lemma {:induction false} LittleEndianAppend(bytes: Bytes, x: Byte)
    ensures LittleEndian(bytes + [x]) == LittleEndian(bytes) + x * Pow(256, |bytes|)
  {
    if bytes == [] {
      assert bytes + [x] == [x] && LittleEndian([x][1..]) == 0;
    } else {
      assert (bytes + [x])[1..] == bytes[1..] + [x];
      LittleEndianAppend(bytes[1..], x);
      Scale(256, LittleEndian(bytes[1..]), x, Pow(256, |bytes| - 1));
    }
  }

  function Reversed(bytes: Bytes): (r: Bytes)
    ensures |r| == |bytes| && forall i :: 0 <= i < |bytes| ==> r[i] == bytes[|bytes| - 1 - i]
  {
    seq(|bytes|, i requires 0 <= i < |bytes| => bytes[|bytes| - 1 - i])
  }

  /** Big-endian is little-endian read backwards. */
  lemma {:induction false} BigEndianIsReversed(bytes: Bytes)
    ensures BigEndian(bytes) == LittleEndian(Reversed(bytes))
  {
    if bytes == [] {
    } else {
      var front := bytes[..|bytes| - 1];
      BigEndianIsReversed(front);
      assert Reversed(bytes)[1..] == Reversed(front);
    }
  }

  /** The bytes of a number give the number back. */
  lemma {:induction false} BigEndianRoundTrip(value: nat, n: nat)
    requires value < Pow(256, n)
    ensures |BigEndianBytes(value, n)| == n && BigEndian(BigEndianBytes(value, n)) == value
  {
    if n == 0 {
    } else {
      BigEndianRoundTrip(value / 256, n - 1);
      var bytes := BigEndianBytes(value, n);
      assert bytes[..n - 1] == BigEndianBytes(value / 256, n - 1);
    }
  }

  lemma {:induction false} LeadingZeros(n: nat, bytes: Bytes)
    ensures BigEndian(Zeros(n) + bytes) == BigEndian(bytes)
  {
    if bytes == [] {
      assert Zeros(n) + bytes == Zeros(n);
      ZerosAreZero(n);
    } else {
      var front := bytes[..|bytes| - 1];
      assert (Zeros(n) + bytes)[..n + |bytes| - 1] == Zeros(n) + front;
      LeadingZeros(n, front);
    }
  }

  lemma {:induction false} ZerosAreZero(n: nat)
    ensures BigEndian(Zeros(n)) == 0
  {
    if n == 0 {
    } else {
      assert Zeros(n)[..n - 1] == Zeros(n - 1);
      ZerosAreZero(n - 1);
    }
  }

  lemma {:induction false} LittleEndianIsBounded(bytes: Bytes)
    ensures LittleEndian(bytes) < Pow(256, |bytes|)
  {
    if bytes == [] {
    } else {
      LittleEndianIsBounded(bytes[1..]);
    }
  }

  /** The number whose byte `j` of `n` is `blob[from + j]`, the first one lowest. */
  function Digits(blob: Bytes, from: nat, n: nat): nat
    requires from + n <= |blob|
  {
    if n == 0 then 0 else Digits(blob, from, n - 1) + blob[from + n - 1] * Pow(256, n - 1)
  }

  lemma {:induction false} LittleEndianIsDigits(blob: Bytes, from: nat, n: nat)
    requires from + n <= |blob|
    ensures LittleEndian(blob[from..from + n]) == Digits(blob, from, n)
  {
    hide LittleEndian, Pow;
    if n == 0 {
      assert blob[from..from] == [];
      NoDigits();
    } else {
      LittleEndianIsDigits(blob, from, n - 1);
      assert blob[from..from + n] == blob[from..from + n - 1] + [blob[from + n - 1]];
      LittleEndianAppend(blob[from..from + n - 1], blob[from + n - 1]);
    }
  }

  lemma NoDigits()
    ensures LittleEndian([]) == 0
  {
  }

  /** Coefficient `i`, counted from the leading one. */
  function Coefficient(blob: Bytes, i: nat): nat
    requires BLOB_CHUNK_SIZE * (i + 1) <= |blob|
  {
    Digits(blob, BLOB_CHUNK_SIZE * i, BLOB_CHUNK_SIZE)
  }

  /** The first `k` terms of the polynomial of degree `n - 1` whose leading coefficient is the first chunk. */
  function Terms(blob: Bytes, x: nat, n: nat, k: nat): nat
    requires k <= n && BLOB_CHUNK_SIZE * n <= |blob|
  {
    if k == 0 then 0 else Terms(blob, x, n, k - 1) + Coefficient(blob, k - 1) * Pow(x, n - k)
  }

  function PolynomialAt(blob: Bytes, x: nat, n: nat): nat
    requires BLOB_CHUNK_SIZE * n <= |blob|
  {
    Terms(blob, x, n, n)
  }

  /** Reduction into the field of order `p`. */
  function Reduced(v: nat, p: nat): nat
    requires p > 0
  {
    v % p
  }

  lemma {:induction false} SmallMultiple(k: int, p: int)
    requires -p < k * p < p
    ensures k == 0
  {
    assert k >= 1 ==> k * p >= p;
    assert k <= -1 ==> k * p <= -p;
  }

  lemma {:induction false} Split(v: nat, p: nat) returns (q: nat, r: nat)
    requires p > 0
    ensures v == q * p + r && r == Reduced(v, p) && r < p
  {
    q, r := v / p, v % p;
  }

  lemma {:induction false} RemainderIsUnique(a: nat, q: nat, r: nat, p: nat)
    requires r < p && a == q * p + r
    ensures Reduced(a, p) == r
  {
    hide Reduced;
    var q', r' := Split(a, p);
    assert (q - q') * p == r' - r;
    SmallMultiple(q - q', p);
  }

  /** A 31-byte coefficient is below the modulus, and a field element fits 32 bytes and is read back from them. */
  lemma {:induction false} FieldElementsFit(blob: Bytes, i: nat, value: nat)
    requires BLOB_CHUNK_SIZE * (i + 1) <= |blob| && value < MODULUS
    ensures Reduced(Coefficient(blob, i), MODULUS) == Coefficient(blob, i)
    ensures BigEndian(BigEndianBytes(value, 32)) == value
  {
    hide Pow, LittleEndian, BigEndian, BigEndianBytes, Digits;
    LittleEndianIsDigits(blob, BLOB_CHUNK_SIZE * i, BLOB_CHUNK_SIZE);
    LittleEndianIsBounded(blob[BLOB_CHUNK_SIZE * i..BLOB_CHUNK_SIZE * (i + 1)]);
    BytePowers();
    BigEndianRoundTrip(value, 32);
  }

  lemma {:induction false} BytePowers()
    ensures Pow(256, 31) < MODULUS < Pow(256, 32)
  {
    assert Pow(256, 4) == 0x1_00000000;
    assert Pow(256, 3) == 0x1_000000;
    hide Pow;
    PowAdds(256, 4, 4);
    PowAdds(256, 4, 3);
    PowAdds(256, 8, 8);
    PowAdds(256, 8, 7);
    PowAdds(256, 16, 16);
    PowAdds(256, 16, 15);
  }

  lemma {:induction false} PowAdds(x: nat, m: nat, n: nat)
    ensures Pow(x, m + n) == Pow(x, m) * Pow(x, n)
  {
    if m == 0 {
    } else {
      PowAdds(x, m - 1, n);
      assert x * (Pow(x, m - 1) * Pow(x, n)) == x * Pow(x, m - 1) * Pow(x, n);
    }
  }

  /** One field step of Horner's rule: multiply, reduce, add, reduce. */
  function HornerStep(value: nat, x: nat, c: nat, p: nat): nat
    requires p > 0
  {
    Reduced(Reduced(value * x, p) + c, p)
  }

  /** Reducing at every step gives the reduced result. */
  lemma {:induction false} HornerStepReduces(v: nat, x: nat, c: nat, p: nat)
    requires p > 0
    ensures HornerStep(Reduced(v, p), x, c, p) == Reduced(v * x + c, p)
  {
    hide Reduced;
    var q0, r0 := Split(v, p);
    var q1, r1 := Split(r0 * x, p);
    var q2, r2 := Split(r1 + c, p);
    HornerAlgebra(v, x, c, p, q0, r0, q1, r1, q2, r2);
    RemainderIsUnique(v * x + c, q0 * x + q1 + q2, r2, p);
  }

  lemma {:induction false} HornerAlgebra(v: nat, x: nat, c: nat, p: nat, q0: nat, r0: nat, q1: nat, r1: nat, q2: nat,
                                         r2: nat)
    requires v == q0 * p + r0 && r0 * x == q1 * p + r1 && r1 + c == q2 * p + r2
    ensures v * x + c == (q0 * x + q1 + q2) * p + r2
  {
    Distribute(q0, p, r0, x);
    assert q0 * x * p + q1 * p + q2 * p == (q0 * x + q1 + q2) * p;
  }

  lemma {:induction false} Distribute(q: nat, p: nat, r: nat, x: nat)
    ensures (q * p + r) * x == q * x * p + r * x
  {
    assert q * p * x == q * x * p;
  }

  lemma {:induction false} RaiseDegree(blob: Bytes, x: nat, n: nat, k: nat)
    requires k <= n && BLOB_CHUNK_SIZE * (n + 1) <= |blob|
    ensures Terms(blob, x, n + 1, k) == x * Terms(blob, x, n, k)
  {
    hide Coefficient;
    if k == 0 {
    } else {
      RaiseDegree(blob, x, n, k - 1);
      Scale(x, Terms(blob, x, n, k - 1), Coefficient(blob, k - 1), Pow(x, n - k));
    }
  }

  lemma {:induction false} Scale(x: nat, t: nat, c: nat, w: nat)
    ensures x * (t + c * w) == x * t + c * (x * w)
  {
    assert c * (x * w) == x * (c * w);
  }

  /** Horner's rule over the chunks in order evaluates the polynomial in the field of order `p`. */
  method OpeningValue(blob: Bytes, x: nat, n: nat, p: nat) returns (value: nat)
    requires |blob| == BLOB_CHUNK_SIZE * n && p > 0
    ensures value == Reduced(PolynomialAt(blob, x, n), p)
  {
    value := 0;
    assert value == Reduced(PolynomialAt(blob, x, 0), p);
    hide Digits, LittleEndian, Reduced, HornerStep, Terms;
    for i := 0 to n
      invariant value == Reduced(PolynomialAt(blob, x, i), p)
    {
      HornerAdvances(blob, x, i, p);
      var chunk := blob[BLOB_CHUNK_SIZE * i..BLOB_CHUNK_SIZE * (i + 1)];
      LittleEndianIsDigits(blob, BLOB_CHUNK_SIZE * i, BLOB_CHUNK_SIZE);
      value := HornerStep(value, x, LittleEndian(chunk), p);
    }
  }

  lemma {:induction false} HornerAdvances(blob: Bytes, x: nat, i: nat, p: nat)
    requires BLOB_CHUNK_SIZE * (i + 1) <= |blob| && p > 0
    ensures HornerStep(Reduced(PolynomialAt(blob, x, i), p), x, Coefficient(blob, i), p)
         == Reduced(PolynomialAt(blob, x, i + 1), p)
  {
    hide Coefficient, HornerStep, Reduced, PolynomialAt;
    PolynomialStep(blob, x, i);
    HornerStepReduces(PolynomialAt(blob, x, i), x, Coefficient(blob, i), p);
  }

  /** One more chunk multiplies every earlier term by the point and adds a constant term. */
  lemma {:induction false} PolynomialStep(blob: Bytes, x: nat, i: nat)
    requires BLOB_CHUNK_SIZE * (i + 1) <= |blob|
    ensures PolynomialAt(blob, x, i + 1) == PolynomialAt(blob, x, i) * x + Coefficient(blob, i)
  {
    hide Coefficient;
    RaiseDegree(blob, x, i, i);
    assert Pow(x, 0) == 1;
  }

  // ----- commitments

  /** The opening commitment of a padded blob, with the opening value given by the polynomial. */
  ghost function OpeningCommitment(keccak: Keccak, blob: Bytes, versionedHash: Bytes, linearHash: Bytes): Bytes
    requires |blob| == BYTES_PER_BLOB && IsDigest(keccak)
  {
    var half := keccak(linearHash + versionedHash)[16..32];
    var point := Reduced(BigEndian(half), MODULUS);
    var value := Reduced(PolynomialAt(blob, point, ELEMENTS_PER_4844_BLOCK), MODULUS);
    keccak(versionedHash + half + BigEndianBytes(value, 32))
  }

  method ComputeBlobOpeningCommitment(keccak: Keccak, blob: Bytes, versionedHash: Bytes, linearHash: Bytes)
    returns (r: Bytes)
    requires |blob| == BYTES_PER_BLOB && IsDigest(keccak)
    ensures r == OpeningCommitment(keccak, blob, versionedHash, linearHash)
  {
    hide Reduced, PolynomialAt, BigEndian, BigEndianBytes;
    var evalHash := keccak(linearHash + versionedHash);
    var pointBytes := Zeros(16) + evalHash[16..32];
    LeadingZeros(16, evalHash[16..32]);
    var point := Reduced(BigEndian(pointBytes), MODULUS);
    var value := OpeningValue(blob, point, ELEMENTS_PER_4844_BLOCK, MODULUS);
    r := keccak(versionedHash + evalHash[16..32] + BigEndianBytes(value, 32));
  }

  /** A slot is empty, or carries the linear hash and opening commitment of its padded blob. */
  ghost predicate SlotVerifies(keccak: Keccak, pubdata: Bytes, versionedHash: Bytes, claim: BlobHash, i: nat)
    requires IsDigest(keccak)
  {
    var blob := PaddedBlobFor(pubdata, i);
    if claim.linearHash == ZERO then claim.commitment == ZERO
    else
      && blob.Some?
      && claim.linearHash == keccak(blob.value)
      && claim.commitment == OpeningCommitment(keccak, blob.value, versionedHash, claim.linearHash)
  }

  ghost predicate BlobsVerify(keccak: Keccak, pubdata: Bytes, versionedHashes: seq<Bytes>, blobHashes: seq<BlobHash>)
    requires IsDigest(keccak)
  {
    && |versionedHashes| == |blobHashes|
    && forall i :: 0 <= i < |blobHashes| ==> SlotVerifies(keccak, pubdata, versionedHashes[i], blobHashes[i], i)
  }

  /** The blob bytes of slot `i`: a slice of the pubdata when full, otherwise the padded scratch buffer. */
  method BlobBytes(pubdata: Bytes, i: nat, scratch: array<Byte>) returns (bytes: Bytes)
    requires i * BYTES_PER_BLOB < |pubdata| && scratch.Length == BYTES_PER_BLOB
    modifies scratch
    ensures PaddedBlobFor(pubdata, i) == Some(bytes)
  {
    var start := i * BYTES_PER_BLOB;
    var end := if start + BYTES_PER_BLOB <= |pubdata| then start + BYTES_PER_BLOB else |pubdata|;
    if end - start == BYTES_PER_BLOB {
      bytes := pubdata[start..end];
    } else {
      for k := 0 to end - start
        invariant forall j :: 0 <= j < k ==> scratch[j] == pubdata[start + j]
      {
        scratch[k] := pubdata[start + k];
      }
      for k := end - start to BYTES_PER_BLOB
        invariant forall j :: 0 <= j < end - start ==> scratch[j] == pubdata[start + j]
        invariant forall j :: end - start <= j < k ==> scratch[j] == 0
      {
        scratch[k] := 0;
      }
      bytes := scratch[..];
    }
    assert bytes == PaddedBlobFor(pubdata, i).value;
  }

  /** Accepts exactly when the lengths match and every slot verifies, though one scratch buffer serves all slots. */
  method VerifyBlobHashes(keccak: Keccak, pubdata: Bytes, versionedHashes: seq<Bytes>, blobHashes: seq<BlobHash>)
    returns (r: Result<(), BlobError>)
    requires IsDigest(keccak)
    ensures r.Ok? <==> BlobsVerify(keccak, pubdata, versionedHashes, blobHashes)
  {
    hide PaddedBlobFor, OpeningCommitment;
    if |versionedHashes| != |blobHashes| {
      return Err(LengthMismatch);
    }
    var blobCount := (|pubdata| + BYTES_PER_BLOB - 1) / BYTES_PER_BLOB;
    var scratch := new Byte[BYTES_PER_BLOB];
    for i := 0 to |blobHashes|
      invariant forall j :: 0 <= j < i ==> SlotVerifies(keccak, pubdata, versionedHashes[j], blobHashes[j], j)
    {
      var claim := blobHashes[i];
      if claim.linearHash == ZERO {
        if claim.commitment != ZERO {
          return Err(CommitmentWithoutBlob);
        }
      } else {
        if i >= blobCount {
          return Err(NoPubdata);
        }
        var bytes := BlobBytes(pubdata, i, scratch);
        if claim.linearHash != keccak(bytes) {
          return Err(LinearHashMismatch);
        }
        var commitment := ComputeBlobOpeningCommitment(keccak, bytes, versionedHashes[i], claim.linearHash);
        if claim.commitment != commitment {
          return Err(OpeningMismatch);
        }
      }
    }
    r := Ok(());
  }

  // ----- what the claims stand for

  /** Linear hashes of all slots of a commitment, zero for slots that the pubdata does not reach. */
  method ComputeBlobLinearHashes(keccak: Keccak, pubdata: Bytes, slots: nat) returns (hashes: seq<Bytes>)
    ensures |hashes| == slots
    ensures forall i :: 0 <= i < slots ==>
      hashes[i] == if i * BYTES_PER_BLOB < |pubdata| then keccak(PaddedBlobFor(pubdata, i).value) else ZERO
  {
    hashes := seq(slots, _ => ZERO);
    for i := 0 to slots
      invariant |hashes| == slots
      invariant forall j :: i <= j < slots ==> hashes[j] == ZERO
      invariant forall j :: 0 <= j < i ==>
        hashes[j] == if j * BYTES_PER_BLOB < |pubdata| then keccak(PaddedBlobFor(pubdata, j).value) else ZERO
    {
      var blob := PaddedBlobFor(pubdata, i);
      if blob.Some? {
        hashes := hashes[i := keccak(blob.value)];
      }
    }
  }

  /** Byte `k` of the pubdata followed by endless zeros. */
  function ByteAt(pubdata: Bytes, k: nat): Byte {
    if k < |pubdata| then pubdata[k] else 0
  }

  /** No two different blobs of one slot of the two pubdata share a digest. */
  ghost predicate NoCollision(keccak: Keccak, pubdata: Bytes, other: Bytes) {
    forall i :: 0 <= i ==>
      var blob, blob' := PaddedBlobFor(pubdata, i), PaddedBlobFor(other, i);
      blob.Some? && blob'.Some? && keccak(blob.value) == keccak(blob'.value) ==> blob == blob'
  }

  /**
   Claims bind the pubdata: two runs that pass with the same claims published the same bytes in every
   slot that is claimed at all, and both have pubdata there, unless two of their blobs collide.
   */
  lemma {:induction false} ClaimsBindPubdata(keccak: Keccak, pubdata: Bytes, other: Bytes, versionedHashes: seq<Bytes>,
                                             otherVersionedHashes: seq<Bytes>, claims: seq<BlobHash>, k: nat)
    requires IsDigest(keccak) && NoCollision(keccak, pubdata, other)
    requires BlobsVerify(keccak, pubdata, versionedHashes, claims)
    requires BlobsVerify(keccak, other, otherVersionedHashes, claims)
    requires k / BYTES_PER_BLOB < |claims| && claims[k / BYTES_PER_BLOB].linearHash != ZERO
    ensures ByteAt(pubdata, k) == ByteAt(other, k)
    ensures k / BYTES_PER_BLOB * BYTES_PER_BLOB < |pubdata| && k / BYTES_PER_BLOB * BYTES_PER_BLOB < |other|
  {
    hide OpeningCommitment;
    var i, offset := k / BYTES_PER_BLOB, k % BYTES_PER_BLOB;
    assert SlotVerifies(keccak, pubdata, versionedHashes[i], claims[i], i);
    assert SlotVerifies(keccak, other, otherVersionedHashes[i], claims[i], i);
    hide SlotVerifies;
    var blob, blob' := PaddedBlobFor(pubdata, i), PaddedBlobFor(other, i);
    hide PaddedBlobFor;
    assert blob == blob';
    assert k == i * BYTES_PER_BLOB + offset;
    assert blob.value[offset] == ByteAt(pubdata, k) && blob.value[offset] == ByteAt(other, k);
  }
}
