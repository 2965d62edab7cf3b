/**
 * The store's identifier: a 12-byte object id and its external form, a string
 * of 24 hexadecimal digits. `Hex` is what `ObjectID.Hex()` produces (lower-case
 * digits) and `FromHex` is `primitive.ObjectIDFromHex`, which accepts digits of
 * either case and fails on a wrong length or a non-hex character.
 */
module ObjectIds {
  import opened Wrappers

  type Byte = b: int | 0 <= b < 256

  const IdBytes := 12
  const IdHexLength := 24

  type ObjectId = s: seq<Byte> | |s| == IdBytes witness [0, 0, 0, 0, 0, 0, 0, 0, 0, 0, 0, 0]

  /** The error `ObjectIDFromHex` returns (a wrong length, or hex decoding failed). */
  datatype HexError = ErrInvalidHex

  predicate IsHexChar(c: char) {
    '0' <= c <= '9' || 'a' <= c <= 'f' || 'A' <= c <= 'F'
  }

  predicate IsLowerHexChar(c: char) {
    '0' <= c <= '9' || 'a' <= c <= 'f'
  }

  /** A string `ObjectIDFromHex` accepts. */
  predicate IsObjectIdHex(s: string) {
    |s| == IdHexLength && forall i :: 0 <= i < |s| ==> IsHexChar(s[i])
  }

  /** A string `Hex()` can produce: 24 lower-case hex digits. */
  predicate IsCanonicalHex(s: string) {
    |s| == IdHexLength && forall i :: 0 <= i < |s| ==> IsLowerHexChar(s[i])
  }

  function HexValue(c: char): (v: nat)
    requires IsHexChar(c)
    ensures v < 16
  {
    if '0' <= c <= '9' then c as int - '0' as int
    else if 'a' <= c <= 'f' then c as int - 'a' as int + 10
    else c as int - 'A' as int + 10
  }

  function HexDigit(v: nat): (c: char)
    requires v < 16
    ensures IsLowerHexChar(c) && HexValue(c) == v
  {
    if v < 10 then ('0' as int + v) as char else ('a' as int + v - 10) as char
  }

  /** Two digits per byte, high nibble first. */
  function EncodeBytes(bs: seq<Byte>): (s: string)
    ensures |s| == 2 * |bs|
    ensures forall i :: 0 <= i < |s| ==> IsLowerHexChar(s[i])
  {
    if bs == [] then ""
    else [HexDigit(bs[0] / 16), HexDigit(bs[0] % 16)] + EncodeBytes(bs[1..])
  }

  function DecodeBytes(s: string): (r: Option<seq<Byte>>)
    requires |s| % 2 == 0
    ensures r.Some? <==> forall i :: 0 <= i < |s| ==> IsHexChar(s[i])
    ensures r.Some? ==> 2 * |r.value| == |s|
  {
    if s == [] then Some([])
    else if !IsHexChar(s[0]) || !IsHexChar(s[1]) then None
    else
      match DecodeBytes(s[2..])
      case None => None
      case Some(rest) => Some([HexValue(s[0]) * 16 + HexValue(s[1])] + rest)
  }

  /** `ObjectID.Hex()`. */
  function Hex(id: ObjectId): (s: string)
    ensures IsCanonicalHex(s)
  {
    EncodeBytes(id)
  }

  /** `primitive.ObjectIDFromHex`: succeeds exactly on 24 hex digits of either case. */
  function FromHex(s: string): (r: Result<ObjectId, HexError>)
    ensures r.Success? <==> IsObjectIdHex(s)
  {
    if |s| != IdHexLength then Failure(ErrInvalidHex)
    else
      match DecodeBytes(s)
      case None => Failure(ErrInvalidHex)
      case Some(bs) => Success(bs)
  }

  /** The key a well-formed external id selects: its lower-case spelling. */
  function CanonicalHex(s: string): (c: string)
    requires IsObjectIdHex(s)
    ensures IsCanonicalHex(c)
  {
    Hex(FromHex(s).value)
  }

  lemma {:induction false} DecodeEncodeBytes(bs: seq<Byte>)
    ensures DecodeBytes(EncodeBytes(bs)) == Some(bs)
  {
    if bs != [] {
      var s := EncodeBytes(bs);
      DecodeEncodeBytes(bs[1..]);
      assert s[2..] == EncodeBytes(bs[1..]);
      assert HexValue(s[0]) * 16 + HexValue(s[1]) == bs[0];
      assert [bs[0]] + bs[1..] == bs;
    }
  }

  lemma {:induction false} EncodeDecodeBytes(s: string)
    requires |s| % 2 == 0
    requires forall i :: 0 <= i < |s| ==> IsLowerHexChar(s[i])
    ensures DecodeBytes(s).Some? && EncodeBytes(DecodeBytes(s).value) == s
  {
    if s != [] {
      EncodeDecodeBytes(s[2..]);
      var b := HexValue(s[0]) * 16 + HexValue(s[1]);
      assert b / 16 == HexValue(s[0]) && b % 16 == HexValue(s[1]);
      assert HexDigit(HexValue(s[0])) == s[0];
      assert HexDigit(HexValue(s[1])) == s[1];
      assert [s[0], s[1]] + s[2..] == s;
    }
  }

  /** Decoding the external form of an id gives the id back. */
  lemma FromHexHex(id: ObjectId)
    ensures FromHex(Hex(id)) == Success(id)
  {
    DecodeEncodeBytes(id);
  }

  /** A canonical external id survives decoding and re-encoding unchanged. */
  lemma HexFromHex(s: string)
    requires IsCanonicalHex(s)
    ensures FromHex(s).Success? && Hex(FromHex(s).value) == s
  {
    EncodeDecodeBytes(s);
  }

  /** Distinct ids have distinct external forms. */
  lemma HexInjective(a: ObjectId, b: ObjectId)
    requires Hex(a) == Hex(b)
    ensures a == b
  {
    FromHexHex(a);
    FromHexHex(b);
  }

  /** A canonical string is its own canonical key. */
  lemma CanonicalHexOfCanonical(s: string)
    requires IsCanonicalHex(s)
    ensures IsObjectIdHex(s) && CanonicalHex(s) == s
  {
    HexFromHex(s);
  }
}
