/**
  The addressed unit of data on the bus (`registry::Message`), its two reserved
  addresses, and its wire rendering `"<src>:<dst> <payload>"`.

  Next to the rendering stand its partners: `ParseDecimal`, the inverse of the
  decimal rendering of an id, and `ParseLine`, which reads a rendered message back.
 */
module Messages {
  import opened Wrappers
  import opened Utf8

  /** Rust's `u16`. */
  type U16 = x: int | 0 <= x < 0x1_0000

  /** `MSG_BROADCAST_ID`: the destination meaning "every connected client". */
  const BROADCAST_ID: U16 := 0xFFFF
  /** `MSG_REGISTRY_ID`: the hub's own control endpoint, also the source of its replies. */
  const REGISTRY_ID: U16 := 0

  /** A message is an immutable value: there is no operation that changes one. */
  datatype Message = Message(src: U16, dst: U16, data: seq<Byte>)

  /** The outcome of receiving from a bus subscription: a message, or an error (the subscriber lagged or the bus closed). */
  datatype RecvResult = RecvOk(msg: Message) | RecvErr

  /** `Message::new`: never fails, and keeps a copy of the payload as given. */
  function New(src: U16, dst: U16, data: seq<Byte>): (r: Option<Message>)
    ensures r.Some?
    ensures SrcId(r.value) == src && DstId(r.value) == dst && r.value.data == data
  {
    Some(Message(src, dst, data))
  }

  /** `Message::src_id`. */
  function SrcId(m: Message): U16 {
    m.src
  }

  /** `Message::dst_id`. */
  function DstId(m: Message): U16 {
    m.dst
  }

  // ---------------------------------------------------------------------------
  // Decimal rendering of ids (Rust's `{}` for an unsigned integer)

  predicate IsDigit(c: char) {
    '0' <= c <= '9'
  }

  function DigitChar(d: nat): char
    requires d < 10
  {
    ('0' as int + d) as char
  }

  function DigitValue(c: char): nat
    requires IsDigit(c)
  {
    c as int - '0' as int
  }

  /** A decimal numeral as Rust writes it: digits only, no sign, no leading zero unless it is "0". */
  predicate IsCanonicalNumeral(s: string) {
    && |s| > 0
    && (forall i :: 0 <= i < |s| ==> IsDigit(s[i]))
    && (|s| > 1 ==> s[0] != '0')
  }

  /** The decimal numeral of `n`. */
  function Decimal(n: nat): (s: string)
    ensures IsCanonicalNumeral(s)
    ensures n < 10 <==> |s| == 1
  {
    if n < 10 then [DigitChar(n)]
    else Decimal(n / 10) + [DigitChar(n % 10)]
  }

  /** The value of a string of digits, most significant first. */
  function DigitsValue(s: string): nat
    requires forall i :: 0 <= i < |s| ==> IsDigit(s[i])
  {
    if |s| == 0 then 0
    else DigitsValue(s[..|s| - 1]) * 10 + DigitValue(s[|s| - 1])
  }

  /** Reads a canonical decimal numeral; anything else is rejected. */
  function ParseDecimal(s: string): Option<nat>
  {
    if IsCanonicalNumeral(s) then Some(DigitsValue(s)) else None
  }

  lemma {:induction false} DigitsValueOfDecimal(n: nat)
    ensures DigitsValue(Decimal(n)) == n
    decreases n
  {
    if n >= 10 {
      var p := Decimal(n / 10);
      var s := p + [DigitChar(n % 10)];
      assert s[..|s| - 1] == p;
      DigitsValueOfDecimal(n / 10);
    }
  }

  lemma {:induction false} CanonicalIsPositive(s: string)
    requires IsCanonicalNumeral(s) && s[0] != '0'
    ensures DigitsValue(s) >= 1
    decreases |s|
  {
    if |s| > 1 {
      var p := s[..|s| - 1];
      assert p[0] == s[0];
      CanonicalIsPositive(p);
    }
  }

  lemma {:induction false} DecimalOfDigitsValue(s: string)
    requires IsCanonicalNumeral(s)
    ensures Decimal(DigitsValue(s)) == s
    decreases |s|
  {
    if |s| == 1 {
      assert s == [s[0]];
    } else {
      var p := s[..|s| - 1];
      assert p[0] == s[0];
      CanonicalIsPositive(p);
      DecimalOfDigitsValue(p);
      assert s == p + [s[|s| - 1]];
    }
  }

  /** Reading the numeral of an id gives the id back. */
  lemma ParseDecimalRoundTrip(n: nat)
    ensures ParseDecimal(Decimal(n)) == Some(n)
  {
    DigitsValueOfDecimal(n);
  }

  /** Every numeral `ParseDecimal` accepts is the one `Decimal` writes: a bijection on canonical numerals. */
  lemma ParseDecimalCanonical(s: string, n: nat)
    requires ParseDecimal(s) == Some(n)
    ensures Decimal(n) == s
  {
    DecimalOfDigitsValue(s);
  }

  /** Distinct ids have distinct numerals. */
  lemma DecimalInjective(a: nat, b: nat)
    requires Decimal(a) == Decimal(b)
    ensures a == b
  {
    DigitsValueOfDecimal(a);
    DigitsValueOfDecimal(b);
  }

  // ---------------------------------------------------------------------------
  // Wire rendering

  /** `impl Display for Message`: `"<src>:<dst> <payload as lossy UTF-8>"`. */
  function Render(m: Message): string {
    Decimal(m.src) + ":" + Decimal(m.dst) + " " + Lossy(m.data)
  }

  /** The line written to a client: the rendering followed by one line feed. */
  function Line(m: Message): string {
    Render(m) + "\n"
  }

  /** The bytes `write_all` sends for a forwarded message. */
  function WireBytes(m: Message): seq<Byte> {
    Encode(Line(m))
  }

  /** What a reader of a rendered line can recover: both ids and the payload text. */
  datatype Header = Header(src: U16, dst: U16, text: string)

  /** Position of the first `c` in `s`, or `|s|` when there is none. */
  function IndexOf(s: string, c: char): (k: nat)
    ensures k <= |s|
    ensures forall i :: 0 <= i < k ==> s[i] != c
    ensures k < |s| ==> s[k] == c
  {
    if |s| == 0 then 0
    else if s[0] == c then 0
    else 1 + IndexOf(s[1..], c)
  }

  /** Reads `"<src>:<dst> <text>"` back, rejecting anything `Render` could not have produced. */
  function ParseLine(s: string): Option<Header> {
    var i := IndexOf(s, ':');
    if i == |s| then None
    else
      var rest := s[i + 1..];
      var j := IndexOf(rest, ' ');
      if j == |rest| then None
      else
        match (ParseDecimal(s[..i]), ParseDecimal(rest[..j]))
        case (Some(src), Some(dst)) =>
          if src < 0x1_0000 && dst < 0x1_0000 then Some(Header(src, dst, rest[j + 1..])) else None
        case _ => None
  }

  /** `IndexOf` finds the separator right after a numeral. */
  lemma IndexAfterNumeral(n: string, c: char, tail: string)
    requires IsCanonicalNumeral(n) && !IsDigit(c)
    ensures IndexOf(n + [c] + tail, c) == |n|
  {
    var s := n + [c] + tail;
    assert s[|n|] == c;
  }

  /** A rendered message reads back as its source, its destination and its decoded payload. */
  lemma ParseRender(m: Message)
    ensures ParseLine(Render(m)) == Some(Header(m.src, m.dst, Lossy(m.data)))
  {
    var a := Decimal(m.src);
    var b := Decimal(m.dst);
    var t := Lossy(m.data);
    var s := Render(m);
    assert s == a + [':'] + (b + " " + t);
    IndexAfterNumeral(a, ':', b + " " + t);
    var rest := s[|a| + 1..];
    assert rest == b + [' '] + t;
    IndexAfterNumeral(b, ' ', t);
    assert s[..|a|] == a;
    assert rest[..|b|] == b;
    assert rest[|b| + 1..] == t;
    ParseDecimalRoundTrip(m.src);
    ParseDecimalRoundTrip(m.dst);
  }

  /** Conversely, every line `ParseLine` accepts is exactly the rendering of what it returns. */
  lemma RenderParse(s: string, h: Header)
    requires ParseLine(s) == Some(h)
    ensures Decimal(h.src) + ":" + Decimal(h.dst) + " " + h.text == s
  {
    ParseLineFields(s, h);
    var i := IndexOf(s, ':');
    var rest := s[i + 1..];
    var j := IndexOf(rest, ' ');
    ParseDecimalCanonical(s[..i], h.src);
    ParseDecimalCanonical(rest[..j], h.dst);
    Rejoin(rest, j, ' ');
    Rejoin(s, i, ':');
    Regroup(s[..i], ':', rest[..j], ' ', rest[j + 1..]);
  }

  /** Cutting a sequence at a position and gluing it back gives the sequence. */
  lemma Rejoin(s: string, i: nat, c: char)
    requires i < |s| && s[i] == c
    ensures s[..i] + [c] + s[i + 1..] == s
  {
    assert s == s[..i] + s[i..];
    assert s[i..] == [c] + s[i + 1..];
  }

  lemma Regroup(a: string, c: char, b: string, d: char, t: string)
    ensures a + [c] + b + [d] + t == a + [c] + (b + [d] + t)
  {
  }

  /** What an accepted line consists of: a numeral, a colon, a numeral, a space and the text. */
  lemma ParseLineFields(s: string, h: Header)
    requires ParseLine(s) == Some(h)
    ensures var i := IndexOf(s, ':');
            && i < |s|
            && var rest := s[i + 1..];
               var j := IndexOf(rest, ' ');
               && j < |rest|
               && ParseDecimal(s[..i]) == Some(h.src)
               && ParseDecimal(rest[..j]) == Some(h.dst)
               && h.text == rest[j + 1..]
  {
  }

  /** For a payload that is well-formed UTF-8 text, the rendering determines the whole message. */
  lemma RenderDeterminesMessage(m: Message, text: string)
    requires m.data == Encode(text)
    ensures ParseLine(Render(m)) == Some(Header(m.src, m.dst, text))
    ensures forall m': Message, text': string :: m'.data == Encode(text') && Render(m') == Render(m) ==> m' == m
  {
    LossyEncode(text);
    ParseRender(m);
    forall m': Message, text': string | m'.data == Encode(text') && Render(m') == Render(m)
      ensures m' == m
    {
      LossyEncode(text');
      ParseRender(m');
    }
  }

  /** The bytes written are the encoded rendering followed by exactly one 0x0A byte. */
  lemma WireBytesFraming(m: Message)
    ensures WireBytes(m) == Encode(Render(m)) + [0x0A]
    ensures 0x0A !in m.data ==> forall i :: 0 <= i < |WireBytes(m)| - 1 ==> WireBytes(m)[i] != 0x0A
    ensures Lossy(WireBytes(m)) == Line(m)
  {
    WireSplit(m);
    LossyEncode(Line(m));
    if 0x0A !in m.data {
      LossyNoNewline(m.data);
      NoNewlineInRender(m);
      EncodeNoNewline(Render(m));
      PrefixWithout(Encode(Render(m)), 0x0A);
    }
  }

  lemma WireSplit(m: Message)
    ensures WireBytes(m) == Encode(Render(m)) + [0x0A]
  {
    EncodeAppend(Render(m), "\n");
    assert Encode("\n") == [0x0A];
  }

  lemma NoNewlineInRender(m: Message)
    requires '\n' !in Lossy(m.data)
    ensures '\n' !in Render(m)
  {
    var a, b := Decimal(m.src), Decimal(m.dst);
    assert '\n' !in a && '\n' !in b;
  }

  lemma PrefixWithout(e: seq<Byte>, b: Byte)
    requires b !in e
    ensures forall i :: 0 <= i < |e + [b]| - 1 ==> (e + [b])[i] != b
  {
    forall i | 0 <= i < |e + [b]| - 1
      ensures (e + [b])[i] != b
    {
      assert (e + [b])[i] == e[i];
    }
  }

  lemma Decimal65535()
    ensures Decimal(65535) == "65535"
  {
    assert Decimal(6) == "6";
    assert Decimal(65) == "65";
    assert Decimal(655) == "655";
    assert Decimal(6553) == "6553";
  }

  /** The framing example: source 7, destination 65535, payload "hi" renders as "7:65535 hi". */
  lemma RenderExample()
    ensures Render(Message(7, BROADCAST_ID, [0x68, 0x69])) == "7:65535 hi"
  {
    Decimal65535();
    assert Lossy([0x69]) == "i";
    assert Lossy([0x68, 0x69]) == "hi";
  }

  /** ... and is written as the line "7:65535 hi\n". */
  lemma WireExample()
    ensures WireBytes(Message(7, BROADCAST_ID, [0x68, 0x69])) == Encode("7:65535 hi") + [0x0A]
    ensures Lossy(WireBytes(Message(7, BROADCAST_ID, [0x68, 0x69]))) == "7:65535 hi\n"
  {
    var m := Message(7, BROADCAST_ID, [0x68, 0x69]);
    RenderExample();
    WireBytesFraming(m);
  }
}
