/** Decimal numbers as bytes: a version, the precision, and the magnitude of the coefficient, high byte first. */
module DecimalBinary {
  import opened Rounding
  import opened Decimal

  type Byte = b: int | 0 <= b < 256

  datatype Decoded = Number(value: Dec) | BadLength | BadFormat

  /** The bytes of a magnitude, as few as it takes. */
  function Magnitude(n: nat): seq<Byte> {
    if n == 0 then [] else Magnitude(n / 256) + [n % 256]
  }

  function FromBytes(bytes: seq<Byte>): nat {
    if bytes == [] then 0 else FromBytes(bytes[..|bytes| - 1]) * 256 + bytes[|bytes| - 1]
  }

  function Marshal(a: Dec): seq<Byte>
    requires a.p < 256
  {
    [0, a.p] + Magnitude(Abs(a.x))
  }

  function Unmarshal(data: seq<Byte>): (r: Decoded)
    ensures r.Number? ==> 0 <= r.value.x && r.value.p < 256
  {
    if |data| < 2 then BadLength
    else if data[0] != 0 then BadFormat
    else Number(Dec(FromBytes(data[2..]), data[1]))
  }

  lemma {:induction false} MagnitudeReads(n: nat)
    ensures FromBytes(Magnitude(n)) == n
    ensures Magnitude(n) != [] ==> Magnitude(n)[0] != 0
  {
    if n > 0 {
      MagnitudeReads(n / 256);
      assert Magnitude(n)[..|Magnitude(n)| - 1] == Magnitude(n / 256);
      if n / 256 > 0 {
        assert Magnitude(n)[0] == Magnitude(n / 256)[0];
      }
    }
  }

  lemma {:induction false} ReadsMagnitude(bytes: seq<Byte>)
    requires bytes != [] ==> bytes[0] != 0
    ensures Magnitude(FromBytes(bytes)) == bytes
    ensures bytes != [] ==> FromBytes(bytes) > 0
  {
    if bytes != [] {
      var front, last := bytes[..|bytes| - 1], bytes[|bytes| - 1];
      ReadsMagnitude(front);
      var n := FromBytes(bytes);
      assert n / 256 == FromBytes(front) && n % 256 == last;
      assert bytes == front + [last];
    }
  }

  /** The sign is not written, so exactly the numbers that are not negative come back as they were. */
  lemma BinaryRoundTrip(a: Dec)
    requires a.p < 256
    ensures Unmarshal(Marshal(a)) == Number(Dec(Abs(a.x), a.p))
    ensures Unmarshal(Marshal(a)) == Number(a) <==> a.x >= 0
  {
    MagnitudeReads(Abs(a.x));
    assert Marshal(a)[2..] == Magnitude(Abs(a.x));
  }

  /** Data that is accepted is the encoding of what it is read as exactly when its magnitude has no leading zero. */
  lemma BinaryIsCanonical(data: seq<Byte>)
    requires Unmarshal(data).Number?
    ensures Marshal(Unmarshal(data).value) == data <==> (|data| == 2 || data[2] != 0)
  {
    var a := Unmarshal(data).value;
    var bytes := data[2..];
    assert data == [0, data[1]] + bytes;
    MagnitudeReads(a.x);
    assert Marshal(a)[2..] == Magnitude(a.x);
    if bytes == [] || bytes[0] != 0 {
      ReadsMagnitude(bytes);
    }
  }

  /** Which data is accepted, and where the precision is; the first byte is zero for the only version there is. */
  lemma DataFormat(data: seq<Byte>)
    ensures Unmarshal(data).BadLength? <==> |data| < 2
    ensures Unmarshal(data).BadFormat? <==> |data| >= 2 && data[0] != 0
    ensures Unmarshal(data).Number? ==> Unmarshal(data).value.p == data[1]
  {
  }

  /** -2.58 has the bytes 0 and 2, and then 1 and 2 for 258. */
  lemma BytesExample()
    ensures Marshal(Dec(0 - 258, 2)) == [0, 2, 1, 2]
  {
    assert Magnitude(1) == Magnitude(0) + [1] == [1];
    assert Magnitude(258) == Magnitude(1) + [2];
  }
}
