/**
 * The RESP2 codec of `src/utils/utils.py`: `encode_resp` as the function Encode,
 * `decode_resp` as the function Decode (the specification) and the method
 * DecodeResp (the source's loop over array elements), with the exact byte
 * layouts and the round-trip law that makes pipelining possible.
 */
module Resp {
  import opened Wrappers
  import opened Builtins

  /** The Python values the codec handles: `str` (Simple), `bytes` (Bulk), `int`,
      `None` (Null) and `list` (Array). */
  datatype Value =
    | Simple(text: Bytes)
    | Bulk(data: Bytes)
    | Int(n: int)
    | Null
    | Array(elements: seq<Value>)

  /** What `decode_resp` returns: the value and the remainder (None only after the
      snapshot marker), or Failure for the exceptions it raises. */
  datatype Decoded = Decoded(value: Value, rest: Option<Bytes>) | Failure

  /** The elements decoded by the array loop, with the remainder it leaves. */
  datatype Items = Items(values: seq<Value>, rest: Option<Bytes>) | ItemsFailure

  const NullBulk: Bytes := "$-1\r\n"

  /** The value `decode_resp` gives for a buffer that starts with the snapshot magic. */
  const IgnoreMarker: Value := Bulk("IGNORE")

  /** `encode_resp` */
  function Encode(v: Value): (r: Bytes)
    ensures |r| > 0
    ensures v.Simple? ==> r[0] == '+'
    ensures v.Int? ==> r[0] == ':'
    ensures v.Bulk? || v.Null? ==> r[0] == '$'
    ensures v.Array? ==> r[0] == '*'
    decreases v, 1
  {
    match v
    case Simple(s) => "+" + s + CRLF
    case Bulk(b) => "$" + Decimal(|b|) + CRLF + b + CRLF
    case Int(n) => ":" + Decimal(n) + CRLF
    case Array(vs) => "*" + Decimal(|vs|) + CRLF + EncodeAll(vs)
    case Null => NullBulk
  }

  /** `b''.join(encode_resp(e) for e in vs)` */
  function EncodeAll(vs: seq<Value>): (r: Bytes)
    ensures |vs| <= |r|
    decreases vs, 0
  {
    if vs == [] then [] else Encode(vs[0]) + EncodeAll(vs[1..])
  }

  /** The values the round-trip law covers: a `str` must not contain a CRLF pair,
      since its encoding is only terminated by one. */
  predicate WellFormed(v: Value) {
    match v
    case Simple(s) => NoCrlf(s)
    case Array(vs) => forall w | w in vs :: WellFormed(w)
    case _ => true
  }

  function Len(o: Option<Bytes>): nat { if o.None? then 0 else |o.value| }

  /** `decode_resp`: the empty buffer decodes to None and consumes nothing; otherwise
      the first byte picks the branch. */
  function Decode(data: Bytes): (r: Decoded)
    ensures r.Decoded? && r.rest.Some? ==> |r.rest.value| <= |data|
    decreases |data|, 1, 0
  {
    if data == [] then Decoded(Null, Some(data))
    else if data[0] == '+' || data[0] == '-' then DecodeText(data)
    else if data[0] == ':' then DecodeInteger(data)
    else if data[0] == '$' then DecodeBulk(data)
    else if data[0] == '*' then DecodeArray(data)
    else if StartsWith(data, "REDIS") then Decoded(IgnoreMarker, None)
    else Failure
  }

  /** The `+` and `-` branches: the text up to the first CRLF, as a `str`. */
  function DecodeText(data: Bytes): (r: Decoded)
    requires data != []
    ensures r.Decoded? && r.value.Simple? && r.rest.Some? && |r.rest.value| < |data|
  {
    var e := Find(data);
    Decoded(Simple(Slice(data, 1, e)), Some(Tail(data, e + 2)))
  }

  /** The `:` branch. */
  function DecodeInteger(data: Bytes): (r: Decoded)
    requires data != []
    ensures r.Decoded? ==> r.value.Int? && r.rest.Some? && |r.rest.value| < |data|
    ensures r.Failure? <==> ParseInt(Slice(data, 1, Find(data))).None?
  {
    var e := Find(data);
    match ParseInt(Slice(data, 1, e))
    case None => Failure
    case Some(n) => Decoded(Int(n), Some(Tail(data, e + 2)))
  }

  /** The `$` branch: length -1 is None; otherwise `length` bytes after the header,
      and the two bytes after them are skipped without being looked at. */
  function DecodeBulk(data: Bytes): (r: Decoded)
    requires data != []
    ensures r.Decoded? ==> (r.value.Bulk? || r.value.Null?) && r.rest.Some?
    ensures r.Failure? <==> ParseInt(Slice(data, 1, Find(data))).None?
  {
    var e := Find(data);
    BulkAfterHeader(data, e, ParseInt(Slice(data, 1, e)))
  }

  /** The `$` branch once the header ending at `e` has been read as `length`. */
  function BulkAfterHeader(data: Bytes, e: int, length: Option<int>): Decoded {
    match length
    case None => Failure
    case Some(len) =>
      if len == -1 then Decoded(Null, Some(Tail(data, e + 2)))
      else
        var start := e + 2;
        var end := start + len;
        Decoded(Bulk(Slice(data, start, end)), Some(Tail(data, end + 2)))
  }

  /** The `*` branch: `length` elements decoded one after another. */
  function DecodeArray(data: Bytes): (r: Decoded)
    requires data != []
    ensures r.Decoded? ==> r.value.Array?
    ensures r.Decoded? && r.rest.Some? ==> |r.rest.value| <= |data|
    decreases |data|, 0, 0
  {
    var e := Find(data);
    match ParseInt(Slice(data, 1, e))
    case None => Failure
    case Some(len) =>
      var body := Tail(data, e + 2);
      match DecodeElements(Some(body), len)
      case ItemsFailure => Failure
      case Items(vs, rest) => Decoded(Array(vs), rest)
  }

  /** The `for _ in range(length)` loop of the array branch, one element at a time;
      decoding from a None remainder is the TypeError Python raises. */
  function DecodeElements(rest: Option<Bytes>, n: int): (r: Items)
    ensures r.Items? ==> |r.values| == (if n < 0 then 0 else n)
    ensures r.Items? && r.rest.Some? ==> rest.Some? && |r.rest.value| <= |rest.value|
    decreases Len(rest), 2, n
  {
    if n <= 0 then Items([], rest)
    else if rest.None? then ItemsFailure
    else
      match Decode(rest.value)
      case Failure => ItemsFailure
      case Decoded(v, after) =>
        match DecodeElements(after, n - 1)
        case ItemsFailure => ItemsFailure
        case Items(vs, last) => Items([v] + vs, last)
  }

  /** Glues the elements already decoded onto the outcome of the rest of the loop. */
  function Prepend(done: seq<Value>, later: Items): Items {
    match later
    case ItemsFailure => ItemsFailure
    case Items(vs, rest) => Items(done + vs, rest)
  }

  /** `decode_resp` as the source runs it, one branch per prefix. */
  method DecodeResp(data: Bytes) returns (r: Decoded)
    ensures r == Decode(data)
    decreases |data|, 2
  {
    if data == [] {
      r := Decoded(Null, Some(data));
    } else if data[0] == '+' || data[0] == '-' {
      var e := Find(data);
      r := Decoded(Simple(Slice(data, 1, e)), Some(Tail(data, e + 2)));
    } else if data[0] == ':' {
      r := DecodeInteger(data);
    } else if data[0] == '$' {
      r := DecodeBulk(data);
    } else if data[0] == '*' {
      r := DecodeArrayLoop(data);
    } else if StartsWith(data, "REDIS") {
      r := Decoded(IgnoreMarker, None);
    } else {
      r := Failure;
    }
  }

  /** The array branch of `decode_resp`: the header, then the element loop. */
  method DecodeArrayLoop(data: Bytes) returns (r: Decoded)
    requires data != []
    ensures r == DecodeArray(data)
    decreases |data|, 1
  {
    var e := Find(data);
    var len := ParseInt(Slice(data, 1, e));
    if len.None? {
      return Failure;
    }
    var body := Tail(data, e + 2);
    ArrayItems(data, len.value);
    var items := ReadElements(body, len.value);
    if items.ItemsFailure? {
      return Failure;
    }
    return Decoded(Array(items.values), items.rest);
  }

  /** The `for _ in range(length)` loop: each element is decoded from the remainder
      the previous one left and appended to `elements`. */
  method ReadElements(body: Bytes, n: int) returns (r: Items)
    ensures r == DecodeElements(Some(body), n)
    decreases |body| + 1, 0
  {
    var elements: seq<Value> := [];
    var rest: Option<Bytes> := Some(body);
    PrependNothing(DecodeElements(rest, n));
    var i := 0;
    while i < n
      invariant 0 <= i && (i <= n || i == 0)
      invariant rest.Some? ==> |rest.value| <= |body|
      invariant Prepend(elements, DecodeElements(rest, n - i)) == DecodeElements(Some(body), n)
    {
      if rest.None? {
        return ItemsFailure;
      }
      var element := DecodeResp(rest.value);
      ElementStep(elements, rest.value, n - i);
      if element.Failure? {
        return ItemsFailure;
      }
      elements := elements + [element.value];
      rest := element.rest;
      i := i + 1;
    }
    ElementsDone(elements, rest, n - i);
    return Items(elements, rest);
  }

  /** The array branch in terms of the element loop. */
  lemma ArrayItems(data: Bytes, n: int)
    requires data != [] && ParseInt(Slice(data, 1, Find(data))) == Some(n)
    ensures DecodeArray(data) ==
      match DecodeElements(Some(Tail(data, Find(data) + 2)), n)
      case ItemsFailure => Failure
      case Items(vs, rest) => Decoded(Array(vs), rest)
  {
  }

  lemma PrependNothing(later: Items)
    ensures Prepend([], later) == later
  {
    if later.Items? {
      assert [] + later.values == later.values;
    }
  }

  /** One turn of the element loop. */
  lemma ElementStep(done: seq<Value>, rest: Bytes, m: int)
    requires m > 0
    ensures Decode(rest).Failure? ==> Prepend(done, DecodeElements(Some(rest), m)) == ItemsFailure
    ensures Decode(rest).Decoded? ==>
      Prepend(done, DecodeElements(Some(rest), m))
        == Prepend(done + [Decode(rest).value], DecodeElements(Decode(rest).rest, m - 1))
  {
    var later := DecodeElements(Some(rest), m);
    if Decode(rest).Decoded? && later.Items? {
      var v := Decode(rest).value;
      var tail := DecodeElements(Decode(rest).rest, m - 1);
      assert later.values == [v] + tail.values;
      assert done + ([v] + tail.values) == (done + [v]) + tail.values;
    }
  }

  /** The element loop once it has stopped: no element left to decode. */
  lemma ElementsDone(done: seq<Value>, rest: Option<Bytes>, m: int)
    requires m <= 0
    ensures Prepend(done, DecodeElements(rest, m)) == Items(done, rest)
  {
    assert done + [] == done;
  }

  /** The header `<tag><decimal>\r\n` ends at the first CRLF of the buffer. */
  lemma FindHeader(tag: Byte, d: Bytes, tail: Bytes)
    requires forall k :: 0 <= k < |d| ==> d[k] == '-' || IsDigit(d[k])
    ensures Find([tag] + d + CRLF + tail) == |d| + 1
  {
    var s := [tag] + d + CRLF + tail;
    var k := |d| + 1;
    assert s[k] == '\r' && s[k + 1] == '\n';
    var p := s[..k + 1];
    forall j | 1 <= j <= k
      ensures p[j] != '\n'
    {
      if j < k {
        assert p[j] == d[j - 1];
      }
    }
    FindAt(s, k);
  }

  /** A CRLF-free text followed by CRLF ends exactly at that CRLF. */
  lemma FindText(tag: Byte, t: Bytes, tail: Bytes)
    requires tag != '\r' && NoCrlf(t)
    ensures Find([tag] + t + CRLF + tail) == |t| + 1
  {
    var s := [tag] + t + CRLF + tail;
    var k := |t| + 1;
    assert s[k] == '\r' && s[k + 1] == '\n';
    var p := s[..k + 1];
    forall j | 0 <= j < k
      ensures !CrlfAt(p, j)
    {
      if j == 0 {
        assert p[0] == tag;
      } else if j + 1 < k {
        assert p[j] == t[j - 1] && p[j + 1] == t[j];
        assert !CrlfAt(t, j - 1);
      } else {
        assert p[j + 1] == '\r';
      }
    }
    FindAt(s, k);
  }

  /** What the decoder reads from a header `<tag><decimal>\r\n`: the digits between
      the tag and the first CRLF, and everything after that CRLF as the remainder. */
  lemma ReadHeader(tag: Byte, d: Bytes, tail: Bytes)
    requires forall k :: 0 <= k < |d| ==> d[k] == '-' || IsDigit(d[k])
    ensures var data := [tag] + d + CRLF + tail;
      Find(data) == |d| + 1 && Slice(data, 1, |d| + 1) == d && Tail(data, |d| + 3) == tail
  {
    var data := [tag] + d + CRLF + tail;
    FindHeader(tag, d, tail);
    assert data[1..|d| + 1] == d;
    assert data[|d| + 3..] == tail;
  }

  /** Round trip and pipelining: decoding an encoding followed by any bytes gives the
      value back and leaves exactly those bytes. */
  lemma {:induction false} RoundTrip(v: Value, rest: Bytes)
    requires WellFormed(v)
    ensures Decode(Encode(v) + rest) == Decoded(v, Some(rest))
    decreases v, 1
  {
    match v
    case Simple(t) =>
      assert Encode(v) + rest == ['+'] + t + CRLF + rest;
      RoundTripText('+', t, rest);
    case Bulk(b) => RoundTripBulk(b, rest);
    case Int(n) => RoundTripInt(n, rest);
    case Null => RoundTripNull(rest);
    case Array(vs) =>
      var d := Decimal(|vs|);
      var data := Encode(v) + rest;
      assert data == ['*'] + d + CRLF + (EncodeAll(vs) + rest);
      ReadHeader('*', d, EncodeAll(vs) + rest);
      ParseDecimal(|vs|);
      RoundTripAll(vs, rest);
      assert Decode(data) == DecodeArray(data);
  }

  /** Both `+` and `-` give back the CRLF-free text that follows them, as a `str`. */
  lemma RoundTripText(tag: Byte, t: Bytes, rest: Bytes)
    requires tag == '+' || tag == '-'
    requires NoCrlf(t)
    ensures Decode([tag] + t + CRLF + rest) == Decoded(Simple(t), Some(rest))
  {
    var data := [tag] + t + CRLF + rest;
    FindText(tag, t, rest);
    assert data[1..|t| + 1] == t;
    assert data[|t| + 3..] == rest;
  }

  lemma RoundTripBulk(b: Bytes, rest: Bytes)
    ensures Decode(Encode(Bulk(b)) + rest) == Decoded(Bulk(b), Some(rest))
  {
    var e := |Decimal(|b|)| + 1;
    BulkLayout(b, rest);
    BulkBranch(Encode(Bulk(b)) + rest, e, |b|);
  }

  /** Where the decoder finds the parts of an encoded `bytes` value. */
  lemma BulkLayout(b: Bytes, rest: Bytes)
    ensures var data, e := Encode(Bulk(b)) + rest, |Decimal(|b|)| + 1;
      && data != [] && data[0] == '$' && Find(data) == e
      && ParseInt(Slice(data, 1, e)) == Some(|b|)
      && Slice(data, e + 2, e + 2 + |b|) == b && Tail(data, e + 2 + |b| + 2) == rest
  {
    var d := Decimal(|b|);
    var head := ['$'] + d + CRLF;
    EncodeBulkShape(b, rest);
    ReadHeader('$', d, b + CRLF + rest);
    ParseDecimal(|b|);
    ReadPayload(head, b, rest);
  }

  lemma EncodeBulkShape(b: Bytes, rest: Bytes)
    ensures Encode(Bulk(b)) + rest == ['$'] + Decimal(|b|) + CRLF + (b + CRLF + rest)
  {
  }

  /** The `$` branch once the header is known to hold a non-negative length. */
  lemma BulkBranch(data: Bytes, e: int, len: nat)
    requires data != [] && data[0] == '$'
    requires Find(data) == e
    requires ParseInt(Slice(data, 1, e)) == Some(len)
    ensures Decode(data) == Decoded(Bulk(Slice(data, e + 2, e + 2 + len)), Some(Tail(data, e + 2 + len + 2)))
  {
    DecodeBulkPrefix(data);
    BulkBody(data, e, len);
  }

  lemma DecodeBulkPrefix(data: Bytes)
    requires data != [] && data[0] == '$'
    ensures Decode(data) == DecodeBulk(data)
  {
  }

  lemma BulkBody(data: Bytes, e: int, len: nat)
    requires data != []
    requires Find(data) == e
    requires ParseInt(Slice(data, 1, e)) == Some(len)
    ensures DecodeBulk(data) == Decoded(Bulk(Slice(data, e + 2, e + 2 + len)), Some(Tail(data, e + 2 + len + 2)))
  {
    assert DecodeBulk(data) == BulkAfterHeader(data, e, Some(len));
  }

  /** The bulk payload sits right after the header, and two bytes after it the rest starts. */
  lemma ReadPayload(head: Bytes, b: Bytes, rest: Bytes)
    ensures var data := head + (b + CRLF + rest);
      Slice(data, |head|, |head| + |b|) == b && Tail(data, |head| + |b| + 2) == rest
  {
    var data := head + (b + CRLF + rest);
    assert data[|head|..|head| + |b|] == b;
    assert data[|head| + |b| + 2..] == rest;
  }

  lemma RoundTripInt(n: int, rest: Bytes)
    ensures Decode(Encode(Int(n)) + rest) == Decoded(Int(n), Some(rest))
  {
    var d := Decimal(n);
    var data := Encode(Int(n)) + rest;
    assert data == [':'] + d + CRLF + rest;
    ReadHeader(':', d, rest);
    ParseDecimal(n);
    assert Decode(data) == DecodeInteger(data);
  }

  lemma RoundTripNull(rest: Bytes)
    ensures Decode(Encode(Null) + rest) == Decoded(Null, Some(rest))
  {
    var d := Decimal(-1);
    assert d == "-1";
    var data := Encode(Null) + rest;
    assert data == ['$'] + d + CRLF + rest;
    ReadHeader('$', d, rest);
    ParseDecimal(-1);
    assert Decode(data) == DecodeBulk(data);
  }

  /** The array loop decodes the concatenated encodings of `vs` back into `vs`. */
  lemma {:induction false} RoundTripAll(vs: seq<Value>, rest: Bytes)
    requires forall w | w in vs :: WellFormed(w)
    ensures DecodeElements(Some(EncodeAll(vs) + rest), |vs|) == Items(vs, Some(rest))
    decreases vs, 0
  {
    if vs == [] {
      assert EncodeAll(vs) + rest == rest;
    } else {
      var tail := EncodeAll(vs[1..]) + rest;
      var data := EncodeAll(vs) + rest;
      assert data == Encode(vs[0]) + tail;
      RoundTrip(vs[0], tail);
      ElementsFirst(data, |vs|);
      assert forall w | w in vs[1..] :: w in vs;
      RoundTripAll(vs[1..], rest);
      assert [vs[0]] + vs[1..] == vs;
    }
  }

  /** The first turn of the element loop. */
  lemma ElementsFirst(data: Bytes, m: int)
    requires m > 0 && Decode(data).Decoded?
    ensures DecodeElements(Some(data), m) == Prepend([Decode(data).value], DecodeElements(Decode(data).rest, m - 1))
  {
  }

  /** With nothing after it, an encoding decodes to its value and an empty remainder. */
  lemma DecodeEncode(v: Value)
    requires WellFormed(v)
    ensures Decode(Encode(v)) == Decoded(v, Some([]))
  {
    RoundTrip(v, []);
    assert Encode(v) + [] == Encode(v);
  }

  /** The empty buffer decodes to None and consumes nothing. */
  lemma DecodeEmpty()
    ensures Decode([]) == Decoded(Null, Some([]))
  {
  }

  /** `$-1\r\n` is None while `$0\r\n\r\n` is the empty byte string: the two stay apart. */
  lemma NullIsNotEmptyBulk()
    ensures Decode("$-1\r\n") == Decoded(Null, Some([]))
    ensures Decode("$0\r\n\r\n") == Decoded(Bulk([]), Some([]))
  {
    NullDecodes();
    EmptyBulkDecodes();
  }

  lemma NullDecodes()
    ensures Encode(Null) == "$-1\r\n" && Decode("$-1\r\n") == Decoded(Null, Some([]))
  {
    RoundTripNull([]);
    assert NullBulk + [] == NullBulk;
  }

  lemma EmptyBulkDecodes()
    ensures Encode(Bulk([])) == "$0\r\n\r\n" && Decode("$0\r\n\r\n") == Decoded(Bulk([]), Some([]))
  {
    assert Decimal(0) == "0";
    RoundTripBulk([], []);
    assert Encode(Bulk([])) + [] == "$0\r\n\r\n";
  }

  /** A `bytes` value is framed as `$`, its length in decimal, CRLF, the payload and
      CRLF, and the decimal length read back is the payload length. */
  lemma BulkLengthPrefix(b: Bytes)
    ensures var e := Encode(Bulk(b)); var k := Find(e);
      e[0] == '$' && 0 < k && ParseInt(e[1..k]) == Some(|b|) && e[k + 2..] == b + CRLF
  {
    var d := Decimal(|b|);
    var e := Encode(Bulk(b));
    assert e == ['$'] + d + CRLF + (b + CRLF);
    ReadHeader('$', d, b + CRLF);
    assert e[1..|d| + 1] == d;
    ParseDecimal(|b|);
  }

  /** A `list` is framed as `*`, its element count in decimal and CRLF, followed by
      the encodings of its elements in order. */
  lemma ArrayLayout(vs: seq<Value>)
    ensures var e := Encode(Array(vs)); var k := Find(e);
      e[0] == '*' && 0 < k && ParseInt(e[1..k]) == Some(|vs|) && e[k + 2..] == EncodeAll(vs)
  {
    var d := Decimal(|vs|);
    var e := Encode(Array(vs));
    assert e == ['*'] + d + CRLF + EncodeAll(vs);
    ReadHeader('*', d, EncodeAll(vs));
    assert e[1..|d| + 1] == d;
    ParseDecimal(|vs|);
  }

  /** The join keeps the elements' order: encoding a concatenation concatenates the encodings. */
  lemma {:induction false} EncodeAllAppend(a: seq<Value>, b: seq<Value>)
    ensures EncodeAll(a + b) == EncodeAll(a) + EncodeAll(b)
  {
    if a == [] {
      assert a + b == b;
    } else {
      assert (a + b)[0] == a[0] && (a + b)[1..] == a[1..] + b;
      EncodeAllAppend(a[1..], b);
    }
  }

  /** A buffer that starts with the snapshot magic is not parsed: it yields the IGNORE
      marker and no remainder. Any other byte the decoder does not know is an error. */
  lemma LeadingByte(data: Bytes)
    requires data != [] && data[0] != '+' && data[0] != '-' && data[0] != ':' && data[0] != '$' && data[0] != '*'
    ensures StartsWith(data, "REDIS") ==> Decode(data) == Decoded(IgnoreMarker, None)
    ensures !StartsWith(data, "REDIS") ==> Decode(data) == Failure
  {
  }

  /** A `str` holding a CRLF does not survive the trip: the decoder stops at the
      first CRLF, which is why WellFormed asks for CRLF-free text. */
  lemma TextWithCrlfIsCut()
    ensures Encode(Simple("a\r\nb")) == "+a\r\nb\r\n"
    ensures Decode(Encode(Simple("a\r\nb"))) == Decoded(Simple("a"), Some("b\r\n"))
  {
    var data: Bytes := "+a\r\nb\r\n";
    assert data[..3] == "+a\r";
    FindAt(data, 2);
    assert data[1..2] == "a";
    assert data[4..] == "b\r\n";
  }

  // What decoding consumes.

  /** Decoding only ever takes a prefix off the buffer: the remainder it returns is
      the end of the input. */
  lemma {:induction false} DecodeKeepsSuffix(data: Bytes)
    ensures Decode(data).Decoded? && Decode(data).rest.Some? ==> SuffixOf(Decode(data).rest.value, data)
    decreases |data|, 1, 0
  {
    if data != [] {
      var e := Find(data);
      TailIsSuffix(data, e + 2);
      if data[0] == '$' {
        match ParseInt(Slice(data, 1, e))
        case None =>
        case Some(len) => TailIsSuffix(data, e + 2 + len + 2);
      } else if data[0] == '*' {
        ArrayKeepsSuffix(data);
      }
    }
  }

  lemma {:induction false} ArrayKeepsSuffix(data: Bytes)
    requires data != []
    ensures DecodeArray(data).Decoded? && DecodeArray(data).rest.Some? ==>
      SuffixOf(DecodeArray(data).rest.value, data)
    decreases |data|, 0, 0
  {
    var e := Find(data);
    match ParseInt(Slice(data, 1, e))
    case None =>
    case Some(len) =>
      var body := Tail(data, e + 2);
      TailIsSuffix(data, e + 2);
      ElementsKeepSuffix(Some(body), len);
      var items := DecodeElements(Some(body), len);
      if items.Items? && items.rest.Some? {
        SuffixOfSuffix(data, body, items.rest.value);
      }
  }

  lemma {:induction false} ElementsKeepSuffix(rest: Option<Bytes>, n: int)
    ensures var r := DecodeElements(rest, n);
      r.Items? && r.rest.Some? ==> rest.Some? && SuffixOf(r.rest.value, rest.value)
    decreases Len(rest), 2, n
  {
    if n > 0 && rest.Some? {
      DecodeKeepsSuffix(rest.value);
      match Decode(rest.value)
      case Failure =>
      case Decoded(v, after) =>
        ElementsKeepSuffix(after, n - 1);
        var r := DecodeElements(after, n - 1);
        if r.Items? && r.rest.Some? {
          SuffixOfSuffix(rest.value, after.value, r.rest.value);
        }
    } else if rest.Some? {
      assert rest.value[|rest.value| - |rest.value|..] == rest.value;
    }
  }
}
