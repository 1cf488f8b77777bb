/** Recursive Length Prefix, Appendix B of the Ethereum Yellow Paper: the encoding, a decoder
    that accepts canonical encodings only, and both round trips. */
module Rlp {
  import opened Bytes

  // The range of BUINT32, the type of stream_len
  const U32: nat := 0x1_0000_0000

  /** A number without leading zeros; zero is the empty string. */
  function Minimal(v: nat): (s: seq<byte>)
    ensures v > 0 ==> s != [] && s[0] != 0
  {
    if v == 0 then [] else Minimal(v / 256) + [v % 256]
  }

  lemma {:induction false} MinimalValue(v: nat)
    ensures FromBigEndian(Minimal(v)) == v
  {
    if v > 0 {
      MinimalValue(v / 256);
      assert Minimal(v)[..|Minimal(v)| - 1] == Minimal(v / 256);
    }
  }

  lemma {:induction false} MinimalUnique(s: seq<byte>)
    requires s == [] || s[0] != 0
    ensures Minimal(FromBigEndian(s)) == s
  {
    if s != [] {
      var front, last, v := s[..|s| - 1], s[|s| - 1], FromBigEndian(s);
      MinimalUnique(front);
      NonzeroValue(s);
      assert v == FromBigEndian(front) * 256 + last;
      assert v / 256 == FromBigEndian(front) && v % 256 == last;
      assert s == front + [last];
    }
  }

  lemma {:induction false} NonzeroValue(s: seq<byte>)
    requires s != [] && s[0] != 0
    ensures FromBigEndian(s) > 0
  {
    if |s| > 1 {
      NonzeroValue(s[..|s| - 1]);
    }
  }

  lemma {:induction false} MinimalLen(v: nat, n: nat)
    requires v < Pow256(n)
    ensures |Minimal(v)| <= n
  {
    if v > 0 {
      MinimalLen(v / 256, n - 1);
    }
  }

  datatype Item = Str(s: seq<byte>) | Lst(items: seq<Item>)

  function HeaderLen(len: nat): nat {
    if len <= 55 then 1 else 1 + |Minimal(len)|
  }

  function Size(i: Item): nat {
    match i
    case Str(s) => if |s| == 1 && s[0] < 0x80 then 1 else HeaderLen(|s|) + |s|
    case Lst(items) => HeaderLen(SizeAll(items)) + SizeAll(items)
  }

  function SizeAll(items: seq<Item>): nat {
    if items == [] then 0 else Size(items[0]) + SizeAll(items[1..])
  }

  /** base is 0x80 for strings and 0xC0 for lists. */
  function Header(base: nat, len: nat): (s: seq<byte>)
    requires base == 0x80 || base == 0xC0
    requires len < U32
    ensures |s| == HeaderLen(len)
  {
    LenLen(len);
    if len <= 55 then [base + len] else [base + 55 + |Minimal(len)|] + Minimal(len)
  }

  lemma LenLen(len: nat)
    requires len < U32
    ensures |Minimal(len)| <= 4
  {
    assert Pow256(4) == U32;
    MinimalLen(len, 4);
  }

  function Enc(i: Item): (s: seq<byte>)
    requires Size(i) < U32
    ensures |s| == Size(i)
    decreases i, 0
  {
    match i
    case Str(s) => if |s| == 1 && s[0] < 0x80 then s else Header(0x80, |s|) + s
    case Lst(items) => Header(0xC0, SizeAll(items)) + EncAll(items)
  }

  function EncAll(items: seq<Item>): (s: seq<byte>)
    requires SizeAll(items) < U32
    ensures |s| == SizeAll(items)
    decreases items, 1
  {
    if items == [] then [] else Enc(items[0]) + EncAll(items[1..])
  }

  // Decoding

  /** Kind of an item, where its contents start and how long they are. */
  datatype Head = Head(list: bool, start: nat, len: nat) | Bad

  function DecHead(data: seq<byte>): (h: Head)
    requires data != []
    ensures h.Head? ==> 1 <= h.start + h.len <= |data| && (h.list ==> h.start >= 1)
  {
    var b := data[0];
    if b < 0x80 then Head(false, 0, 1)
    else if b < 0xC0 then DecLen(false, b - 0x80, data)
    else DecLen(true, b - 0xC0, data)
  }

  /** k is the first octet beyond 0x80 or 0xC0. Lengths in a longer form than needed, and a
      prefix in front of a single octet below 0x80, are not canonical. */
  function DecLen(list: bool, k: nat, data: seq<byte>): (h: Head)
    requires data != []
    ensures h.Head? ==> 1 <= h.start && h.start + h.len <= |data| && h.list == list
  {
    if k <= 55 then
      if 1 + k <= |data| && !(!list && k == 1 && data[1] < 0x80) then Head(list, 1, k) else Bad
    else
      var w := k - 55;
      if 1 + w <= |data| && data[1] != 0 then
        var len := FromBigEndian(data[1..1 + w]);
        if len > 55 && 1 + w + len <= |data| then Head(list, 1 + w, len) else Bad
      else Bad
  }

  datatype Decoded = Item(i: Item, n: nat) | Invalid

  datatype DecodedAll = Items(items: seq<Item>) | InvalidItems

  /** The item at the front of data, and its length. */
  function Dec(data: seq<byte>): (d: Decoded)
    requires data != []
    ensures d.Item? ==> 1 <= d.n <= |data|
    decreases |data|, 0
  {
    match DecHead(data)
    case Bad => Invalid
    case Head(list, start, len) =>
      var body := data[start..start + len];
      if !list then Decoded.Item(Str(body), start + len)
      else match DecAll(body)
        case InvalidItems => Invalid
        case Items(items) => Decoded.Item(Lst(items), start + len)
  }

  function DecAll(data: seq<byte>): DecodedAll
    decreases |data|, 1
  {
    if data == [] then Items([])
    else match Dec(data)
      case Invalid => InvalidItems
      case Item(i, n) =>
        match DecAll(data[n..])
        case InvalidItems => InvalidItems
        case Items(rest) => Items([i] + rest)
  }

  // Decoding what was encoded

  lemma HeaderDecoded(list: bool, len: nat, body: seq<byte>, rest: seq<byte>)
    requires |body| == len < U32 && !(!list && len == 1 && body[0] < 0x80)
    ensures var base := if list then 0xC0 else 0x80;
      DecHead(Header(base, len) + body + rest) == Head(list, |Header(base, len)|, len)
  {
    var base := if list then 0xC0 else 0x80;
    var h := Header(base, len);
    var data := h + body + rest;
    LenLen(len);
    MinimalValue(len);
    assert data[0] == h[0];
    if len > 55 {
      assert data[1..1 + |Minimal(len)|] == Minimal(len);
      assert data[1] == Minimal(len)[0];
    } else if len == 1 {
      assert data[1] == body[0];
    }
  }

  lemma Middle(a: seq<byte>, b: seq<byte>, c: seq<byte>)
    ensures (a + b + c)[|a|..|a| + |b|] == b && (a + b + c)[|a + b|..] == c
  {
  }

  /** Every item is decoded from its encoding, whatever follows. */
  lemma {:induction false} DecEnc(i: Item, rest: seq<byte>)
    requires Size(i) < U32
    ensures Enc(i) + rest != [] && Dec(Enc(i) + rest) == Decoded.Item(i, |Enc(i)|)
    decreases i, 0
  {
    match i
    case Str(s) =>
      if |s| == 1 && s[0] < 0x80 {
        assert (s + rest)[0] == s[0] && (s + rest)[0..1] == s;
      } else {
        HeaderDecoded(false, |s|, s, rest);
        Middle(Header(0x80, |s|), s, rest);
      }
    case Lst(items) =>
      var body := EncAll(items);
      HeaderDecoded(true, |body|, body, rest);
      Middle(Header(0xC0, |body|), body, rest);
      DecEncAll(items);
  }

  lemma {:induction false} DecEncAll(items: seq<Item>)
    requires SizeAll(items) < U32
    ensures DecAll(EncAll(items)) == Items(items)
    decreases items, 1
  {
    if items != [] {
      var tail := EncAll(items[1..]);
      DecEnc(items[0], tail);
      DecEncAll(items[1..]);
      assert (Enc(items[0]) + tail)[|Enc(items[0])|..] == tail;
      assert items == [items[0]] + items[1..];
    }
  }

  /** Different items have different encodings. */
  lemma EncInjective(i: Item, j: Item)
    requires Size(i) < U32 && Size(j) < U32 && Enc(i) == Enc(j)
    ensures i == j
  {
    DecEnc(i, []);
    DecEnc(j, []);
  }

  // Encoding what was decoded

  lemma HeaderEncoded(data: seq<byte>)
    requires data != [] && |data| < U32 && DecHead(data).Head? && data[0] >= 0x80
    ensures var h := DecHead(data);
      h.start == HeaderLen(h.len) && data[..h.start] == Header(if h.list then 0xC0 else 0x80, h.len)
    ensures var h := DecHead(data); !h.list && h.len == 1 ==> data[h.start] >= 0x80
  {
    var h := DecHead(data);
    if h.start > 1 {
      LongHeader(data, if h.list then 0xC0 else 0x80, h.start, h.len);
    }
  }

  lemma LongHeader(data: seq<byte>, base: nat, start: nat, len: nat)
    requires 1 < start <= |data| && data[1] != 0 && len == FromBigEndian(data[1..start])
    requires base == 0x80 || base == 0xC0
    requires 55 < len < U32 && data[0] == base + 55 + (start - 1)
    ensures start == HeaderLen(len) && data[..start] == Header(base, len)
  {
    var be := data[1..start];
    assert be[0] == data[1];
    MinimalUnique(be);
    assert data[..start] == [data[0]] + be;
  }

  /** The decoder accepts only encodings: re-encoding gives back the octets it consumed. */
  lemma {:induction false} EncDec(data: seq<byte>)
    requires data != [] && |data| < U32 && Dec(data).Item?
    ensures Size(Dec(data).i) == Dec(data).n && Enc(Dec(data).i) == data[..Dec(data).n]
    decreases |data|, 0
  {
    var h := DecHead(data);
    if data[0] < 0x80 {
      assert data[0..1][0] == data[0];
    } else {
      HeaderEncoded(data);
      var body := data[h.start..h.start + h.len];
      assert data[..h.start + h.len] == data[..h.start] + body;
      if h.list {
        EncDecAll(body);
      } else if h.len == 1 {
        assert body[0] == data[h.start];
      }
    }
  }

  lemma DecAllStep(data: seq<byte>) returns (first: Item, n: nat, rest: seq<Item>)
    requires data != [] && DecAll(data).Items?
    ensures Dec(data) == Decoded.Item(first, n) && 1 <= n <= |data|
    ensures DecAll(data[n..]) == Items(rest) && DecAll(data) == Items([first] + rest)
  {
    first, n := Dec(data).i, Dec(data).n;
    rest := DecAll(data[n..]).items;
  }

  lemma Rejoined(data: seq<byte>, first: Item, n: nat, rest: seq<Item>)
    requires n <= |data| < U32 && Size(first) == n && Enc(first) == data[..n]
    requires SizeAll(rest) == |data| - n && EncAll(rest) == data[n..]
    ensures SizeAll([first] + rest) == |data| && EncAll([first] + rest) == data
  {
    SizeAllCons(first, rest);
    EncAllCons(first, rest);
    assert data == data[..n] + data[n..];
  }

  lemma SizeAllCons(first: Item, rest: seq<Item>)
    ensures SizeAll([first] + rest) == Size(first) + SizeAll(rest)
  {
    assert ([first] + rest)[1..] == rest;
  }

  lemma EncAllCons(first: Item, rest: seq<Item>)
    requires SizeAll([first] + rest) < U32 && Size(first) < U32 && SizeAll(rest) < U32
    ensures EncAll([first] + rest) == Enc(first) + EncAll(rest)
  {
    assert ([first] + rest)[1..] == rest;
  }

  lemma {:induction false} EncDecAll(data: seq<byte>)
    requires |data| < U32 && DecAll(data).Items?
    ensures SizeAll(DecAll(data).items) == |data| && EncAll(DecAll(data).items) == data
    decreases |data|, 1
  {
    if data != [] {
      var first, n, rest := DecAllStep(data);
      EncDec(data);
      EncDecAll(data[n..]);
      Rejoined(data, first, n, rest);
    }
  }

  // The rules in full

  /** Up to 55 octets, one octet `short` + length stands in front; beyond, one octet `long` + the
      number of octets of the length, then the length without leading zeros, highest octet first. */
  predicate Prefixed(e: seq<byte>, short: nat, long: nat, body: seq<byte>) {
    if |body| <= 55 then |e| == 1 + |body| && e[0] as int == short + |body| && e[1..] == body
    else
      var k := |e| - 1 - |body|;
      1 <= k <= 4 && e[0] as int == long + k && e[1] != 0 && FromBigEndian(e[1..1 + k]) == |body| && e[1 + k..] == body
  }

  lemma EncForm(i: Item)
    requires Size(i) < U32
    ensures match i
      case Str(s) => if |s| == 1 && s[0] < 0x80 then Enc(i) == s else Prefixed(Enc(i), 0x80, 0xB7, s)
      case Lst(items) => Prefixed(Enc(i), 0xC0, 0xF7, EncAll(items))
  {
    match i
    case Str(s) =>
      if !(|s| == 1 && s[0] < 0x80) {
        HeaderForm(0x80, s);
      }
    case Lst(items) =>
      HeaderForm(0xC0, EncAll(items));
  }

  lemma HeaderForm(base: nat, body: seq<byte>)
    requires (base == 0x80 || base == 0xC0) && |body| < U32
    ensures Prefixed(Header(base, |body|) + body, base, base + 55, body)
  {
    var h := Header(base, |body|);
    var e := h + body;
    assert e[|h|..] == body;
    if |body| > 55 {
      LenLen(|body|);
      MinimalValue(|body|);
      assert e[1..|h|] == Minimal(|body|);
    }
  }

  // The summary of the rules in the header of the encoder

  /** "encoded = <field>, if field_len is 1", read literally. */
  function SummaryStr(s: seq<byte>): seq<byte>
    requires |s| <= 55
  {
    if |s| == 1 then s else [0x80 + |s|] + s
  }

  /** Read literally, the summary agrees with the standard except on one octet from 0x80 on, and
      there it is ambiguous. */
  lemma SummaryDiffers(s: seq<byte>)
    requires |s| <= 55
    ensures Size(Str(s)) < U32
    ensures SummaryStr(s) == Enc(Str(s)) <==> !(|s| == 1 && s[0] >= 0x80)
    ensures SummaryStr([0x80]) == SummaryStr([])
  {
  }
}
