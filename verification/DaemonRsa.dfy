/** The receiving half of the RSA channel: daemon/task/rsa.go. */
module DaemonRsa {
  import opened Congruence
  import opened BigEndian
  import opened RsaKeys

  datatype Reason = DataLength | MessageTooLong | FirstByteNotZero | NotPrivateKeyBlock

  // OutOfRange is the run-time panic on an index or slice outside the block.
  datatype Received = Plain(payload: seq<byte>) | Refused(reason: Reason) | OutOfRange

  // Position of the first zero byte from i on, or the length when there is none.
  function FirstZero(d: seq<byte>, i: nat): (z: nat)
    requires i <= |d|
    ensures i <= z <= |d| && (z < |d| ==> d[z] == 0)
    ensures forall j :: i <= j < z ==> d[j] != 0
    decreases |d| - i
  {
    if i == |d| || d[i] == 0 then i else FirstZero(d, i + 1)
  }

  // What a decrypted block holds: the bytes after the first zero behind the
  // two leading bytes.
  function Unpad(d: seq<byte>): Received {
    if |d| == 0 then OutOfRange
    else if d[0] != 0 then Refused(FirstByteNotZero)
    else if |d| == 1 then OutOfRange
    else if d[1] != 0 && d[1] != 1 then Refused(NotPrivateKeyBlock)
    else
      var z := FirstZero(d, 2);
      if z == |d| then OutOfRange else Plain(d[z + 1..])
  }

  function Receive(pub: PublicKey, data: seq<byte>): Received
    requires pub.n > 0
  {
    if |data| != ByteLen(pub.n) then Refused(DataLength)
    else if Value(data) > pub.n then Refused(MessageTooLong)
    else
      ByteLenBounds(pub.n);
      Unpad(FixedBytes(PowMod(Value(data), pub.e, pub.n), ByteLen(pub.n)))
  }

  // The separator is the first zero behind the two leading bytes.
  predicate SeparatorAt(block: seq<byte>, z: int) {
    2 <= z < |block| && block[z] == 0 && forall j :: 2 <= j < z ==> block[j] != 0
  }

  // What is received, told by the block: the bytes whose value is that of the
  // data to the power e modulo n.
  lemma ReceiveExact(pub: PublicKey, data: seq<byte>, block: seq<byte>)
    requires pub.n > 0 && |block| == ByteLen(pub.n) && Value(block) == PowMod(Value(data), pub.e, pub.n)
    ensures var r := Receive(pub, data);
      if |data| != |block| then r == Refused(DataLength)
      else if Value(data) > pub.n then r == Refused(MessageTooLong)
      else if block[0] != 0 then r == Refused(FirstByteNotZero)
      else if |block| >= 2 && block[1] >= 2 then r == Refused(NotPrivateKeyBlock)
      else
        && (forall z :: SeparatorAt(block, z) ==> r == Plain(block[z + 1..]))
        && ((forall z :: !SeparatorAt(block, z)) ==> r == OutOfRange)
  {
    ByteLenBounds(pub.n);
    ValueInjective(FixedBytes(PowMod(Value(data), pub.e, pub.n), ByteLen(pub.n)), block);
    hide Value, PowMod, ByteLen, FixedBytes;
    if |data| == |block| && Value(data) <= pub.n && |block| >= 2 {
      var z := FirstZero(block, 2);
      assert z < |block| ==> SeparatorAt(block, z);
      forall y | SeparatorAt(block, y)
        ensures y == z
      {
      }
    }
  }

  method LeftPad(input: seq<byte>, size: nat) returns (out: array<byte>)
    ensures fresh(out)
    ensures out[..] == if |input| <= size then Zeros(size - |input|) + input else input[..size]
  {
    var n := |input|;
    if n > size {
      n := size;
    }
    out := new byte[size](i => 0);
    forall i | 0 <= i < n {
      out[size - n + i] := input[i];
    }
    assert forall j :: size - n <= j < size ==> out[j] == input[j - (size - n)];
  }

  method PubKeyDecrypt(pub: PublicKey, data: seq<byte>) returns (r: Received)
    requires pub.n > 0
    ensures r == Receive(pub, data)
  {
    var k := (BitLen(pub.n) + 7) / 8;
    if k != |data| {
      return Refused(DataLength);
    }
    var m := Value(data);
    if m > pub.n {
      return Refused(MessageTooLong);
    }
    m := PowMod(m, pub.e, pub.n);
    ByteLenBounds(pub.n);
    MinimalLength(m, k);
    var d := LeftPad(MinimalBytes(m), k);
    ghost var block := d[..];
    assert block == FixedBytes(m, k);
    if d[0] != 0 {
      return Refused(FirstByteNotZero);
    }
    if d.Length == 1 {
      return OutOfRange;
    }
    if d[1] != 0 && d[1] != 1 {
      return Refused(NotPrivateKeyBlock);
    }
    var i := 2;
    while i < d.Length
      invariant 2 <= i <= d.Length
      invariant forall j :: 2 <= j < i ==> block[j] != 0
    {
      if d[i] == 0 {
        break;
      }
      i := i + 1;
    }
    assert FirstZero(block, 2) == i;
    i := i + 1;
    if i == d.Length {
      return Plain([]);
    }
    if i > d.Length {
      return OutOfRange;
    }
    return Plain(d[i..]);
  }
}

/** The channel from end to end. */
module TaskChannel {
  import opened Congruence
  import opened BigEndian
  import opened RsaKeys
  import ServerRsa
  import opened DaemonRsa

  // Unpadding a block returns its payload: the first zero after the leading
  // bytes is the separator, since the padding holds none.
  lemma UnpadPadded(payload: seq<byte>, k: nat)
    requires |payload| + 11 <= k
    ensures Unpad(ServerRsa.PaddedBlock(payload, k)) == Plain(payload)
  {
    var em, z := ServerRsa.PaddedBlock(payload, k), k - |payload| - 1;
    assert em[z] == 0 && forall j :: 2 <= j < z ==> em[j] == 0xff;
    assert FirstZero(em, 2) == z;
    assert em[z + 1..] == payload;
  }

  // For every valid key and every payload that fits, the daemon recovers
  // exactly what the server encrypted.
  lemma RoundTrip(k: PrivateKey, payload: seq<byte>)
    requires ValidKey(k) && |payload| + 11 <= ByteLen(k.pub.n)
    ensures Receive(k.pub, ServerRsa.Ciphertext(k, payload)) == Plain(payload)
  {
    var n, len := k.pub.n, ByteLen(k.pub.n);
    var em := ServerRsa.PaddedBlock(payload, len);
    var a := Value(em);
    ServerRsa.PaddedBlockFits(payload, n);
    PowModReducesBase(Pow(a, k.d), k.pub.e, n);
    ExponentsCancel(k, a);
    CongToMod(Pow(Pow(a, k.d), k.pub.e), a, n);
    ModUnique(a, n, 0, a);
    ByteLenBounds(n);
    ValueInjective(FixedBytes(a, len), em);
    UnpadPadded(payload, len);
  }

  // The whole exchange as the two programs run it: whatever the random source
  // yields, the daemon gets the payload or the server reports an error.
  method Exchange(random: ServerRsa.Random, k: PrivateKey, payload: seq<byte>)
    returns (sent: ServerRsa.Result<seq<byte>>, received: Received)
    requires ValidKey(k)
    requires random.Draws? ==> forall i :: 0 <= i < |random.draws| ==> random.draws[i] < k.pub.n
    ensures sent.Ok? ==> received == Plain(payload)
    ensures random.NoRandom? ==> (sent.Ok? <==> |payload| + 11 <= ByteLen(k.pub.n))
  {
    received := Refused(DataLength);
    sent := ServerRsa.PriKeyEncrypt(random, k, payload);
    if sent.Ok? {
      received := PubKeyDecrypt(k.pub, sent.value);
      RoundTrip(k, payload);
    }
  }
}
