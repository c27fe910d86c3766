/**
  The RESP2 reply encoder of app/main.py (`encode`). The three members of the
  source's `DataType` enum are the three constructors of `Reply`; the enum has
  no other member, so the source's trailing `return None` cannot be reached.
 */
module Resp {

  import opened Decimal

  const CRLF: string := "\r\n"

  /**
    A Python text value handed to `encode`: a `str`, or a `bytes` object (such
    as `"dir".encode()`). `raw` holds the bytes one character per byte.
   */
  datatype PyStr = Str(text: string) | Bytes(raw: string)

  /** Python's `len`: characters of a `str`, bytes of a `bytes`. */
  function Len(v: PyStr): nat {
    match v
    case Str(t) => |t|
    case Bytes(b) => |b|
  }

  /**
    What an f-string writes for `{v}`: the text of a `str`, but the repr
    `b'...'` of a `bytes` object.
   */
  function Interpolate(v: PyStr): string {
    match v
    case Str(t) => t
    case Bytes(b) => "b'" + b + "'"
  }

  /** A reply to encode: the source's `DataType` tag with its payload. */
  datatype Reply =
    | Array(items: seq<PyStr>)
    | BulkString(data: PyStr)
    | SimpleError(msg: string)

  /** One bulk string, `$<len>\r\n<data>\r\n`, as the f-string writes it. */
  function EncodeBulk(v: PyStr): string {
    "$" + Digits(Len(v)) + CRLF + Interpolate(v) + CRLF
  }

  /** The join of the array branch: every element bulk-encoded, in order. */
  function EncodeBulks(items: seq<PyStr>): string {
    if |items| == 0 then "" else EncodeBulk(items[0]) + EncodeBulks(items[1..])
  }

  function Encode(r: Reply): string {
    match r
    case Array(items) => "*" + Digits(|items|) + CRLF + EncodeBulks(items)
    case BulkString(data) => EncodeBulk(data)
    case SimpleError(msg) => "-" + msg + CRLF
  }

  /** The Python `str` values of a list of texts. */
  function AsStr(texts: seq<string>): (items: seq<PyStr>)
    ensures |items| == |texts|
    ensures forall i :: 0 <= i < |texts| ==> items[i] == Str(texts[i])
  {
    seq(|texts|, i requires 0 <= i < |texts| => Str(texts[i]))
  }

  /**
    The length prefix of a bulk string agrees with the number of characters
    written after it exactly when the payload is a `str`; for `bytes` the
    repr adds three characters the prefix does not count.
   */
  lemma BulkPrefixMatchesPayload(v: PyStr)
    ensures (|Interpolate(v)| == Len(v)) <==> v.Str?
    ensures v.Bytes? ==> |Interpolate(v)| == Len(v) + 3
  {
  }

  /** The empty list encodes to the bare header `*0\r\n`. */
  lemma EmptyArray()
    ensures Encode(Array([])) == "*0\r\n"
  {
  }

  /** The element part of an array encoding distributes over concatenation. */
  lemma {:induction false} EncodeBulksAppend(a: seq<PyStr>, b: seq<PyStr>)
    ensures EncodeBulks(a + b) == EncodeBulks(a) + EncodeBulks(b)
    decreases |a|
  {
    if |a| == 0 {
      assert a + b == b;
    } else {
      var ab := a + b;
      assert ab[0] == a[0];
      assert ab[1..] == a[1..] + b;
      EncodeBulksAppend(a[1..], b);
      assert EncodeBulks(ab) == EncodeBulk(a[0]) + EncodeBulks(a[1..] + b);
    }
  }
}
