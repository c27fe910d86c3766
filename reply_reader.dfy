/**
  A RESP2 reply reader: what a client on the other end of the connection
  does with the text the encoder writes. It accepts lengths written in
  canonical decimal only, which makes each reading the exact inverse of the
  matching encoding.
 */
module ReplyReader {

  import opened Wrappers
  import opened Decimal
  import opened Resp

  /** The two characters at `i` are a carriage return and a line feed. */
  predicate CrlfAt(s: string, i: nat) {
    i + 2 <= |s| && s[i] == '\r' && s[i + 1] == '\n'
  }

  /** Reads a bulk string `$<n>\r\n<n characters>\r\n`; returns the payload and the rest. */
  function ReadBulk(s: string): Option<(string, string)> {
    if |s| == 0 || s[0] != '$' then None
    else match ReadNat(s[1..])
      case None => None
      case Some((n, t)) =>
        if |t| >= n + 4 && CrlfAt(t, 0) && CrlfAt(t, n + 2)
        then Some((t[2..n + 2], t[n + 4..]))
        else None
  }

  /** Reads `count` bulk strings one after the other. */
  function ReadBulks(count: nat, s: string): Option<(seq<string>, string)> {
    if count == 0 then Some(([], s))
    else
      var head := ReadBulk(s);
      if head.None? then None
      else
        var tail := ReadBulks(count - 1, head.value.1);
        if tail.None? then None
        else Some(([head.value.0] + tail.value.0, tail.value.1))
  }

  /** Reads an array of bulk strings `*<n>\r\n` followed by n bulk strings. */
  function ReadArray(s: string): Option<(seq<string>, string)> {
    if |s| == 0 || s[0] != '*' then None
    else match ReadNat(s[1..])
      case None => None
      case Some((n, t)) =>
        if CrlfAt(t, 0) then ReadBulks(n, t[2..]) else None
  }

  /** The index of the first carriage return in `s`, or `|s|` when there is none. */
  function FindCr(s: string): (k: nat)
    ensures k <= |s| && '\r' !in s[..k]
    ensures k < |s| ==> s[k] == '\r'
  {
    if |s| == 0 || s[0] == '\r' then 0 else 1 + FindCr(s[1..])
  }

  /** Reads a simple error `-<message>\r\n`; the message ends at the first carriage return. */
  function ReadError(s: string): Option<(string, string)> {
    if |s| == 0 || s[0] != '-' then None
    else
      var k := FindCr(s[1..]);
      if CrlfAt(s, k + 1) then Some((s[1..k + 1], s[k + 3..])) else None
  }

  /** The bulk layout regrouped around its length field. */
  lemma BulkShape(digits: string, p: string, rest: string)
    ensures "$" + digits + CRLF + p + CRLF + rest == "$" + (digits + (CRLF + p + CRLF + rest))
  {
  }

  /** Past its `$`, a bulk encoding is the length field and then the framed payload. */
  lemma BulkHeader(v: PyStr, rest: string)
    ensures (EncodeBulk(v) + rest)[0] == '$'
    ensures (EncodeBulk(v) + rest)[1..] == Digits(Len(v)) + (CRLF + Interpolate(v) + CRLF + rest)
  {
    BulkShape(Digits(Len(v)), Interpolate(v), rest);
    var x := Digits(Len(v)) + (CRLF + Interpolate(v) + CRLF + rest);
    assert ("$" + x)[1..] == x;
  }

  /** One more bulk string in front of an encoded list. */
  lemma PrependBulk(s: string, p: string, t: string, ps: seq<string>, u: string)
    requires s == EncodeBulk(Str(p)) + t && t == EncodeBulks(AsStr(ps)) + u
    ensures s == EncodeBulks(AsStr([p] + ps)) + u
  {
    var items := AsStr([p] + ps);
    assert items[0] == Str(p) && items[1..] == AsStr(ps);
    var a := EncodeBulk(Str(p));
    var b := EncodeBulks(AsStr(ps));
    assert EncodeBulks(items) == a + b;
    assert s == a + (b + u);
  }

  // ---- bulk strings ------------------------------------------------------

  /** A bulk-encoded `str` reads back as its text, whatever follows it. */
  lemma ReadEncodedBulk(text: string, rest: string)
    ensures ReadBulk(EncodeBulk(Str(text)) + rest) == Some((text, rest))
  {
    var s := EncodeBulk(Str(text)) + rest;
    var n := |text|;
    var t := CRLF + text + CRLF + rest;
    BulkHeader(Str(text), rest);
    ReadNatOfDigits(n, t);
    assert CrlfAt(t, 0) && CrlfAt(t, n + 2);
    assert t[2..n + 2] == text && t[n + 4..] == rest;
  }

  /** Whatever ReadBulk accepts is the bulk encoding of the payload it returns. */
  lemma ReadBulkSound(s: string)
    requires ReadBulk(s).Some?
    ensures s == EncodeBulk(Str(ReadBulk(s).value.0)) + ReadBulk(s).value.1
  {
    ReadNatSound(s[1..]);
    var n := ReadNat(s[1..]).value.0;
    var t := ReadNat(s[1..]).value.1;
    var p := t[2..n + 2];
    var r := t[n + 4..];
    LineFrame(t, n);
    assert s == s[..1] + s[1..];
    BulkShape(Digits(n), p, r);
  }

  /** Line breaks at 0 and at `n + 2` frame the `n` characters between them. */
  lemma LineFrame(t: string, n: nat)
    requires |t| >= n + 4 && CrlfAt(t, 0) && CrlfAt(t, n + 2)
    ensures t == CRLF + t[2..n + 2] + CRLF + t[n + 4..]
  {
    assert t[..2] == CRLF && t[n + 2..n + 4] == CRLF;
    assert t == t[..2] + t[2..n + 2] + t[n + 2..n + 4] + t[n + 4..];
  }

  /**
    A bulk string built from `bytes` is misframed: its prefix counts the raw
    bytes, but the repr `b'...'` is written, so the reader recovers neither
    the repr that was written nor the bytes that were meant.
   */
  lemma BytesBulkMisframed(raw: string, rest: string)
    ensures ReadBulk(EncodeBulk(Bytes(raw)) + rest) != Some((Interpolate(Bytes(raw)), rest))
    ensures ReadBulk(EncodeBulk(Bytes(raw)) + rest) != Some((raw, rest))
  {
    var s := EncodeBulk(Bytes(raw)) + rest;
    var t := CRLF + Interpolate(Bytes(raw)) + CRLF + rest;
    BulkHeader(Bytes(raw), rest);
    ReadNatOfDigits(|raw|, t);
    assert ReadNat(s[1..]) == Some((|raw|, t));
    if ReadBulk(s).Some? {
      assert ReadBulk(s).value.0 == t[2..|raw| + 2];
      assert |ReadBulk(s).value.0| == |raw| < |Interpolate(Bytes(raw))|;
      assert |t| == |raw| + 7 + |rest|;
      assert |ReadBulk(s).value.1| == |rest| + 3;
    }
  }

  /** The source's own bulk encoding of `"dir".encode()` cannot be read at all. */
  lemma BytesBulkOfDirUnreadable()
    ensures EncodeBulk(Bytes("dir")) == "$3\r\nb'dir'\r\n"
    ensures ReadBulk(EncodeBulk(Bytes("dir"))) == None
  {
    var s := EncodeBulk(Bytes("dir"));
    assert Digits(3) == "3";
    assert s == "$3\r\nb'dir'\r\n";
    var t := s[2..];
    assert s[1..] == "3" + t;
    ReadNatOfDigits(3, t);
    assert t[5..7] == "ir";
  }

  // ---- arrays ------------------------------------------------------------

  lemma {:induction false} ReadEncodedBulks(texts: seq<string>, rest: string)
    ensures ReadBulks(|texts|, EncodeBulks(AsStr(texts)) + rest) == Some((texts, rest))
    decreases |texts|
  {
    if |texts| > 0 {
      var items := AsStr(texts);
      assert items[1..] == AsStr(texts[1..]);
      var tail := EncodeBulks(items[1..]) + rest;
      assert EncodeBulks(items) + rest == EncodeBulk(Str(texts[0])) + tail;
      ReadEncodedBulk(texts[0], tail);
      ReadEncodedBulks(texts[1..], rest);
      assert ReadBulks(|texts| - 1, tail) == Some((texts[1..], rest));
      assert [texts[0]] + texts[1..] == texts;
    } else {
      assert EncodeBulks(AsStr(texts)) + rest == rest;
    }
  }

  /** ReadBulks returns exactly as many payloads as it was asked for. */
  lemma {:induction false} ReadBulksCount(count: nat, s: string)
    requires ReadBulks(count, s).Some?
    ensures |ReadBulks(count, s).value.0| == count
    decreases count
  {
    if count > 0 {
      ReadBulksCount(count - 1, ReadBulk(s).value.1);
    }
  }

  lemma {:induction false} ReadBulksSound(count: nat, s: string)
    requires ReadBulks(count, s).Some?
    ensures s == EncodeBulks(AsStr(ReadBulks(count, s).value.0)) + ReadBulks(count, s).value.1
    decreases count
  {
    if count > 0 {
      var p := ReadBulk(s).value.0;
      var t := ReadBulk(s).value.1;
      ReadBulkSound(s);
      ReadBulksSound(count - 1, t);
      var ps := ReadBulks(count - 1, t).value.0;
      var u := ReadBulks(count - 1, t).value.1;
      assert ReadBulks(count, s).value.0 == [p] + ps;
      assert ReadBulks(count, s).value.1 == u;
      PrependBulk(s, p, t, ps, u);
    } else {
      assert s == EncodeBulks(AsStr([])) + s;
    }
  }

  /** The array layout regrouped around its count field. */
  lemma ArrayShape(digits: string, body: string, rest: string)
    ensures "*" + digits + CRLF + body + rest == "*" + (digits + (CRLF + (body + rest)))
  {
  }

  /** Text that starts with `*`, a count and CRLF is the array layout around that count. */
  lemma ArrayFrame(s: string, digits: string, t: string, body: string, rest: string)
    requires |s| > 0 && s[0] == '*' && s[1..] == digits + t
    requires CrlfAt(t, 0) && t[2..] == body + rest
    ensures s == "*" + digits + CRLF + body + rest
  {
    assert t[..2] == CRLF;
    assert t == t[..2] + t[2..];
    assert s == [s[0]] + s[1..];
  }

  /** An array of `str` values reads back as the same texts in the same order. */
  lemma ReadEncodedArray(texts: seq<string>, rest: string)
    ensures ReadArray(Encode(Array(AsStr(texts))) + rest) == Some((texts, rest))
  {
    var n := |texts|;
    var body := EncodeBulks(AsStr(texts));
    var s := Encode(Array(AsStr(texts))) + rest;
    var t := CRLF + (body + rest);
    ArrayShape(Digits(n), body, rest);
    assert s[1..] == Digits(n) + t;
    ReadNatOfDigits(n, t);
    assert CrlfAt(t, 0) && t[2..] == body + rest;
    ReadEncodedBulks(texts, rest);
  }

  /** Whatever ReadArray accepts is the array encoding of the texts it returns. */
  lemma ReadArraySound(s: string)
    requires ReadArray(s).Some?
    ensures s == Encode(Array(AsStr(ReadArray(s).value.0))) + ReadArray(s).value.1
  {
    ReadNatSound(s[1..]);
    var n := ReadNat(s[1..]).value.0;
    var t := ReadNat(s[1..]).value.1;
    ReadBulksSound(n, t[2..]);
    ReadBulksCount(n, t[2..]);
    var ps := ReadBulks(n, t[2..]).value.0;
    var u := ReadBulks(n, t[2..]).value.1;
    ArrayFrame(s, Digits(n), t, EncodeBulks(AsStr(ps)), u);
  }

  // ---- simple errors -----------------------------------------------------

  /** An error message without a carriage return reads back unchanged. */
  lemma ReadEncodedError(msg: string, rest: string)
    requires '\r' !in msg
    ensures ReadError(Encode(SimpleError(msg)) + rest) == Some((msg, rest))
  {
    var s := Encode(SimpleError(msg)) + rest;
    assert s[1..] == msg + CRLF + rest;
    FindCrOf(msg, CRLF + rest);
    assert CrlfAt(s, |msg| + 1);
    assert s[1..|msg| + 1] == msg && s[|msg| + 3..] == rest;
  }

  lemma {:induction false} FindCrOf(msg: string, rest: string)
    requires '\r' !in msg && |rest| > 0 && rest[0] == '\r'
    ensures FindCr(msg + rest) == |msg|
    decreases |msg|
  {
    if |msg| > 0 {
      assert (msg + rest)[1..] == msg[1..] + rest;
      FindCrOf(msg[1..], rest);
    }
  }

  /** Whatever ReadError accepts is the error encoding of a message without a carriage return. */
  lemma ReadErrorSound(s: string)
    requires ReadError(s).Some?
    ensures '\r' !in ReadError(s).value.0
    ensures s == Encode(SimpleError(ReadError(s).value.0)) + ReadError(s).value.1
  {
    var k := FindCr(s[1..]);
    assert s[1..k + 1] == s[1..][..k];
    ErrorFrame(s, k);
  }

  /** A text that starts with `-` and has a line break at `k + 1` is an error frame around `s[1..k + 1]`. */
  lemma ErrorFrame(s: string, k: nat)
    requires CrlfAt(s, k + 1) && s[0] == '-'
    ensures s == "-" + s[1..k + 1] + CRLF + s[k + 3..]
  {
    assert s[k + 1..k + 3] == CRLF;
    assert s == s[..1] + s[1..k + 1] + s[k + 1..k + 3] + s[k + 3..];
  }
}
