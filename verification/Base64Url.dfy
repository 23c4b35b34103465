/**
 base64url without padding (section 5 of RFC 4648): bytes are numbers below 256. The
 decoder follows the one the server runs: it skips characters outside the alphabet,
 stops at a complete padding and reports left-over bits.
 */
module Base64Url {
  import opened Common

  type byte = n: int | 0 <= n < 256
  type sextet = n: int | 0 <= n < 64

  function Symbol(v: sextet): char {
    if v < 26 then 'A' + (v as char)
    else if v < 52 then 'a' + ((v - 26) as char)
    else if v < 62 then '0' + ((v - 52) as char)
    else if v == 62 then '-'
    else '_'
  }

  function Value(c: char): Option<sextet> {
    if 'A' <= c <= 'Z' then Some((c - 'A') as int)
    else if 'a' <= c <= 'z' then Some((c - 'a') as int + 26)
    else if '0' <= c <= '9' then Some((c - '0') as int + 52)
    else if c == '-' || c == '+' then Some(62)
    else if c == '_' || c == '/' then Some(63)
    else None
  }

  // Three bytes are four groups of six bits; a rest of one or two bytes is filled up
  // with zero bits.
  function Sextets(bytes: seq<byte>): seq<sextet>
    decreases |bytes|
  {
    if bytes == [] then []
    else if |bytes| == 1 then [bytes[0] / 4, bytes[0] % 4 * 16]
    else if |bytes| == 2 then [bytes[0] / 4, bytes[0] % 4 * 16 + bytes[1] / 16, bytes[1] % 16 * 4]
    else
      [bytes[0] / 4, bytes[0] % 4 * 16 + bytes[1] / 16, bytes[1] % 16 * 4 + bytes[2] / 64, bytes[2] % 64]
        + Sextets(bytes[3..])
  }

  function Text(sextets: seq<sextet>): string {
    seq(|sextets|, i requires 0 <= i < |sextets| => Symbol(sextets[i]))
  }

  // base64.urlsafe_b64encode
  function EncodePadded(bytes: seq<byte>): string {
    Text(Sextets(bytes)) + (match |bytes| % 3 case 0 => "" case 1 => "==" case _ => "=")
  }

  function StripPadding(s: string): string {
    if s != [] && s[|s| - 1] == '=' then StripPadding(s[..|s| - 1]) else s
  }

  function Encode(bytes: seq<byte>): string {
    StripPadding(EncodePadded(bytes))
  }

  function Padding(length: nat): string {
    Pads((0 - length) % 4)
  }

  function Pads(count: nat): string {
    if count == 0 then "" else "=" + Pads(count - 1)
  }

  // The scanner: position in the group of four, bits left over, padding seen.
  function Scan(s: string, position: nat, left: nat, pads: nat, out: seq<byte>): Option<seq<byte>>
    requires position < 4 && left < 64
    requires (position == 2 ==> left < 16) && (position == 3 ==> left < 4)
    decreases |s|
  {
    if s == [] then (if position == 0 then Some(out) else None)
    else if s[0] == '=' then
      if position >= 2 && position + pads + 1 >= 4 then Some(out)
      else Scan(s[1..], position, left, if position >= 2 then pads + 1 else pads, out)
    else
      match Value(s[0])
      case None => Scan(s[1..], position, left, pads, out)
      case Some(v) =>
        if position == 0 then Scan(s[1..], 1, v, 0, out)
        else if position == 1 then Scan(s[1..], 2, v % 16, 0, out + [left * 4 + v / 16])
        else if position == 2 then Scan(s[1..], 3, v % 4, 0, out + [left * 16 + v / 4])
        else Scan(s[1..], 0, 0, 0, out + [left * 64 + v])
  }

  // Non-ASCII text is refused before the scan.
  function Decode(value: string): Option<seq<byte>> {
    var padded := value + Padding(|value|);
    if exists i :: 0 <= i < |padded| && padded[i] >= 128 as char then None else Scan(padded, 0, 0, 0, [])
  }

  // --- Round trip -------------------------------------------------------------------

  lemma SymbolHasValue(v: sextet)
    ensures Value(Symbol(v)) == Some(v)
    ensures Symbol(v) != '=' && Symbol(v) != '.' && Symbol(v) < 128 as char
  {
  }

  lemma TextHasSymbols(sextets: seq<sextet>)
    ensures forall i :: 0 <= i < |sextets| ==>
              Text(sextets)[i] != '=' && Text(sextets)[i] != '.' && Text(sextets)[i] < 128 as char
  {
    forall i | 0 <= i < |sextets|
      ensures Text(sextets)[i] != '=' && Text(sextets)[i] != '.' && Text(sextets)[i] < 128 as char
    {
      SymbolHasValue(sextets[i]);
    }
  }

  // The padding written is the padding the decoder puts back.
  lemma {:induction false} SextetCount(bytes: seq<byte>)
    ensures |Sextets(bytes)| % 4 == (if |bytes| % 3 == 0 then 0 else |bytes| % 3 + 1)
    decreases |bytes|
  {
    if |bytes| >= 3 {
      SextetCount(bytes[3..]);
    }
  }

  lemma StripPads(text: string)
    requires text == [] || text[|text| - 1] != '='
    ensures StripPadding(text) == text && StripPadding(text + "=") == text && StripPadding(text + "==") == text
  {
    StripOne(text);
    StripOne(text + "=");
    assert text + "==" == text + "=" + "=";
  }

  lemma StripOne(text: string)
    ensures StripPadding(text + "=") == StripPadding(text)
  {
    var padded := text + "=";
    assert padded[..|padded| - 1] == text;
  }

  lemma PaddingOf(length: nat)
    ensures Padding(length) ==
            if length % 4 == 0 then "" else if length % 4 == 2 then "==" else if length % 4 == 3 then "=" else "==="
  {
    var q, r := length / 4, length % 4;
    assert 0 - length == 4 * (-q - (if r == 0 then 0 else 1)) + (if r == 0 then 0 else 4 - r);
    assert (0 - length) % 4 == if r == 0 then 0 else 4 - r;
    assert Pads(0) == "" && Pads(1) == "=" && Pads(2) == "==" && Pads(3) == "===";
  }

  // Stripping removes exactly the padding.
  lemma EncodeIsText(bytes: seq<byte>)
    ensures Encode(bytes) == Text(Sextets(bytes))
    ensures EncodePadded(bytes) == Text(Sextets(bytes)) + Padding(|Text(Sextets(bytes))|)
  {
    SextetCount(bytes);
    TextHasSymbols(Sextets(bytes));
    PadsAreStripped(Text(Sextets(bytes)), |bytes|);
  }

  lemma PadsAreStripped(text: string, n: nat)
    requires text == [] || text[|text| - 1] != '='
    requires |text| % 4 == (if n % 3 == 0 then 0 else n % 3 + 1)
    ensures var padded := text + (match n % 3 case 0 => "" case 1 => "==" case _ => "=");
            StripPadding(padded) == text && padded == text + Padding(|text|)
  {
    StripPads(text);
    PaddingOf(|text|);
    assert text + "" == text;
  }

  lemma ScanValue(c: char, v: sextet, rest: string, position: nat, left: nat, pads: nat, out: seq<byte>)
    requires position < 4 && left < 64 && (position == 2 ==> left < 16) && (position == 3 ==> left < 4)
    requires c != '=' && Value(c) == Some(v)
    ensures Scan([c] + rest, position, left, pads, out) ==
              if position == 0 then Scan(rest, 1, v, 0, out)
              else if position == 1 then Scan(rest, 2, v % 16, 0, out + [left * 4 + v / 16])
              else if position == 2 then Scan(rest, 3, v % 4, 0, out + [left * 16 + v / 4])
              else Scan(rest, 0, 0, 0, out + [left * 64 + v])
  {
    assert ([c] + rest)[1..] == rest;
  }

  lemma ScanSymbol(v: sextet, rest: string, position: nat, left: nat, pads: nat, out: seq<byte>)
    requires position < 4 && left < 64 && (position == 2 ==> left < 16) && (position == 3 ==> left < 4)
    ensures Scan([Symbol(v)] + rest, position, left, pads, out) ==
              if position == 0 then Scan(rest, 1, v, 0, out)
              else if position == 1 then Scan(rest, 2, v % 16, 0, out + [left * 4 + v / 16])
              else if position == 2 then Scan(rest, 3, v % 4, 0, out + [left * 16 + v / 4])
              else Scan(rest, 0, 0, 0, out + [left * 64 + v])
  {
    SymbolHasValue(v);
    ScanValue(Symbol(v), v, rest, position, left, pads, out);
  }

  lemma ScanTwo(p: sextet, q: sextet, rest: string, out: seq<byte>)
    ensures Scan([Symbol(p), Symbol(q)] + rest, 0, 0, 0, out) == Scan(rest, 2, q % 16, 0, out + [p * 4 + q / 16])
  {
    var after := [Symbol(q)] + rest;
    assert [Symbol(p), Symbol(q)] + rest == [Symbol(p)] + after;
    ScanSymbol(p, after, 0, 0, 0, out);
    ScanSymbol(q, rest, 1, p, 0, out);
  }

  lemma ScanThree(p: sextet, q: sextet, r: sextet, rest: string, out: seq<byte>)
    ensures Scan([Symbol(p), Symbol(q), Symbol(r)] + rest, 0, 0, 0, out)
         == Scan(rest, 3, r % 4, 0, out + [p * 4 + q / 16, q % 16 * 16 + r / 4])
  {
    var first, second := p * 4 + q / 16, q % 16 * 16 + r / 4;
    var after := [Symbol(r)] + rest;
    ScanTwo(p, q, after, out);
    ScanSymbol(r, rest, 2, q % 16, 0, out + [first]);
    assert [Symbol(p), Symbol(q), Symbol(r)] + rest == [Symbol(p), Symbol(q)] + after;
    assert out + [first] + [second] == out + [first, second];
  }

  lemma ScanFour(p: sextet, q: sextet, r: sextet, v: sextet, rest: string, out: seq<byte>)
    ensures Scan([Symbol(p), Symbol(q), Symbol(r), Symbol(v)] + rest, 0, 0, 0, out)
         == Scan(rest, 0, 0, 0, out + [p * 4 + q / 16, q % 16 * 16 + r / 4, r % 4 * 64 + v])
  {
    var first, second, third := p * 4 + q / 16, q % 16 * 16 + r / 4, r % 4 * 64 + v;
    var after := [Symbol(v)] + rest;
    ScanThree(p, q, r, after, out);
    ScanSymbol(v, rest, 3, r % 4, 0, out + [first, second]);
    assert [Symbol(p), Symbol(q), Symbol(r), Symbol(v)] + rest == [Symbol(p), Symbol(q), Symbol(r)] + after;
    assert out + [first, second] + [third] == out + [first, second, third];
  }

  lemma ScanGroup(p: sextet, q: sextet, r: sextet, v: sextet, rest: string, out: seq<byte>, group: seq<byte>)
    requires group == [p * 4 + q / 16, q % 16 * 16 + r / 4, r % 4 * 64 + v]
    ensures Scan([Symbol(p), Symbol(q), Symbol(r), Symbol(v)] + rest, 0, 0, 0, out) == Scan(rest, 0, 0, 0, out + group)
  {
    ScanFour(p, q, r, v, rest, out);
  }

  lemma BitsAreKept(a: byte, b: byte, c: byte)
    ensures a / 4 * 4 + (a % 4 * 16 + b / 16) / 16 == a
    ensures (a % 4 * 16 + b / 16) % 16 * 16 + (b % 16 * 4 + c / 64) / 4 == b
    ensures (b % 16 * 4 + c / 64) % 4 * 64 + c % 64 == c
  {
  }

  lemma ScanOneByte(a: byte, out: seq<byte>)
    ensures Scan(EncodePadded([a]), 0, 0, 0, out) == Some(out + [a])
  {
    var p, q: sextet := a / 4, a % 4 * 16;
    assert Sextets([a]) == [p, q];
    assert EncodePadded([a]) == [Symbol(p), Symbol(q)] + "==";
    BitsAreKept(a, 0, 0);
    ScanTwo(p, q, "==", out);
    assert "=="[1..] == "=";
  }

  lemma ScanTwoBytes(a: byte, b: byte, out: seq<byte>)
    ensures Scan(EncodePadded([a, b]), 0, 0, 0, out) == Some(out + [a, b])
  {
    var p, q, r: sextet := a / 4, a % 4 * 16 + b / 16, b % 16 * 4;
    assert Sextets([a, b]) == [p, q, r];
    assert EncodePadded([a, b]) == [Symbol(p), Symbol(q), Symbol(r)] + "=";
    BitsAreKept(a, b, 0);
    ScanThree(p, q, r, "=", out);
  }

  lemma PaddedGroup(a: byte, b: byte, c: byte, more: seq<byte>)
    ensures EncodePadded([a, b, c] + more)
         == [Symbol(a / 4), Symbol(a % 4 * 16 + b / 16), Symbol(b % 16 * 4 + c / 64), Symbol(c % 64)]
           + EncodePadded(more)
  {
    var bytes := [a, b, c] + more;
    assert bytes[3..] == more;
    assert Sextets(bytes) == [a / 4, a % 4 * 16 + b / 16, b % 16 * 4 + c / 64, c % 64] + Sextets(more);
  }

  lemma ScanThreeBytes(a: byte, b: byte, c: byte, more: seq<byte>, out: seq<byte>)
    ensures Scan(EncodePadded([a, b, c] + more), 0, 0, 0, out) == Scan(EncodePadded(more), 0, 0, 0, out + [a, b, c])
  {
    var p, q, r, s: sextet := a / 4, a % 4 * 16 + b / 16, b % 16 * 4 + c / 64, c % 64;
    PaddedGroup(a, b, c, more);
    BitsAreKept(a, b, c);
    ScanGroup(p, q, r, s, EncodePadded(more), out, [a, b, c]);
  }

  // The scanner reads back what the encoder wrote, whatever came before.
  lemma {:induction false} ScanInvertsEncode(bytes: seq<byte>, out: seq<byte>)
    ensures Scan(EncodePadded(bytes), 0, 0, 0, out) == Some(out + bytes)
    decreases |bytes|
  {
    if bytes == [] {
      assert out + bytes == out;
    } else if |bytes| == 1 {
      assert bytes == [bytes[0]];
      ScanOneByte(bytes[0], out);
    } else if |bytes| == 2 {
      assert bytes == [bytes[0], bytes[1]];
      ScanTwoBytes(bytes[0], bytes[1], out);
    } else {
      var group := [bytes[0], bytes[1], bytes[2]];
      assert bytes == group + bytes[3..];
      ScanThreeBytes(bytes[0], bytes[1], bytes[2], bytes[3..], out);
      ScanInvertsEncode(bytes[3..], out + group);
      assert out + group + bytes[3..] == out + bytes;
    }
  }

  // Re-padding by -len % 4 restores every stripped encoding.
  lemma DecodeInvertsEncode(bytes: seq<byte>)
    ensures Decode(Encode(bytes)) == Some(bytes)
  {
    EncodeIsText(bytes);
    TextHasSymbols(Sextets(bytes));
    ScanInvertsEncode(bytes, []);
    assert [] + bytes == bytes;
  }

  lemma EncodeIsInjective(a: seq<byte>, b: seq<byte>)
    ensures Encode(a) == Encode(b) <==> a == b
  {
    DecodeInvertsEncode(a);
    DecodeInvertsEncode(b);
  }

  lemma EncodeHasNoDot(bytes: seq<byte>)
    ensures '.' !in Encode(bytes)
  {
    EncodeIsText(bytes);
    TextHasSymbols(Sextets(bytes));
  }

  // --- What any other text decodes to -------------------------------------------------

  // A to Z, a to z, 0 to 9, and then '-' and '_'.
  lemma SymbolExactly(v: sextet)
    ensures Symbol(0) == 'A' && Symbol(26) == 'a' && Symbol(52) == '0' && Symbol(62) == '-' && Symbol(63) == '_'
    ensures v < 61 && v != 25 && v != 51 ==> Symbol(v + 1) as int == Symbol(v) as int + 1
  {
  }

  // The decoder also reads the two symbols of the other alphabet of RFC 4648.
  lemma ValueExactly(c: char, v: sextet)
    ensures Value(c) == Some(v) <==> c == Symbol(v) || (v == 62 && c == '+') || (v == 63 && c == '/')
  {
  }

  // The symbols of a text; everything else is passed over.
  function Symbols(s: string): seq<sextet> {
    if s == "" then []
    else
      var v := Value(s[|s| - 1]);
      Symbols(s[..|s| - 1]) + if v.Some? then [v.value] else []
  }

  // Eight bits: the last bits of one group and the first ones of the next.
  function FirstByte(p: sextet, q: sextet): byte {
    p as int * 4 + q as int / 16
  }

  function SecondByte(q: sextet, r: sextet): byte {
    q as int % 16 * 16 + r as int / 4
  }

  function ThirdByte(r: sextet, v: sextet): byte {
    r as int % 4 * 64 + v as int
  }

  // The whole bytes of a sequence of six-bit groups.
  function Bytes(s: seq<sextet>): seq<byte> {
    if |s| < 2 then []
    else if |s| == 2 then [FirstByte(s[0], s[1])]
    else if |s| == 3 then [FirstByte(s[0], s[1]), SecondByte(s[1], s[2])]
    else [FirstByte(s[0], s[1]), SecondByte(s[1], s[2]), ThirdByte(s[2], s[3])] + Bytes(s[4..])
  }

  // The bits of the last group that no whole byte has taken.
  function LeftOver(sextets: seq<sextet>): nat {
    var n := |sextets|;
    if n % 4 == 0 then 0
    else if n % 4 == 1 then sextets[n - 1]
    else if n % 4 == 2 then sextets[n - 1] % 16
    else sextets[n - 1] % 4
  }

  // The byte that one more group completes.
  function NextByte(sextets: seq<sextet>, v: sextet): seq<byte> {
    var n := |sextets|;
    if n % 4 == 0 then []
    else if n % 4 == 1 then [FirstByte(sextets[n - 1], v)]
    else if n % 4 == 2 then [SecondByte(sextets[n - 1], v)]
    else [ThirdByte(sextets[n - 1], v)]
  }

  lemma PositionNext(sextets: seq<sextet>, v: sextet)
    ensures |sextets + [v]| % 4 == (if |sextets| % 4 == 3 then 0 else |sextets| % 4 + 1)
    ensures LeftOver(sextets + [v]) ==
            match |sextets| % 4 case 0 => v case 1 => v % 16 case 2 => v % 4 case _ => 0
  {
    assert (sextets + [v])[|sextets|] == v;
  }

  lemma FewBytes(p: sextet, q: sextet, r: sextet, v: sextet)
    ensures Bytes([]) == [] && Bytes([p]) == [] && Bytes([p, q]) == [FirstByte(p, q)]
    ensures Bytes([p, q, r]) == [FirstByte(p, q), SecondByte(q, r)]
    ensures Bytes([p, q, r, v]) == [FirstByte(p, q), SecondByte(q, r), ThirdByte(r, v)]
  {
    assert [p, q, r, v][4..] == [];
  }

  lemma NextAfterOne(p: sextet, v: sextet)
    ensures Bytes([p, v]) == Bytes([p]) + NextByte([p], v)
  {
    FewBytes(p, v, v, v);
  }

  lemma NextAfterTwo(p: sextet, q: sextet, v: sextet)
    ensures Bytes([p, q, v]) == Bytes([p, q]) + NextByte([p, q], v)
  {
    FewBytes(p, q, v, v);
  }

  lemma NextAfterThree(p: sextet, q: sextet, r: sextet, v: sextet)
    ensures Bytes([p, q, r, v]) == Bytes([p, q, r]) + NextByte([p, q, r], v)
  {
    FewBytes(p, q, r, v);
  }

  lemma NextByteOfRest(sextets: seq<sextet>, v: sextet)
    requires |sextets| >= 4
    ensures NextByte(sextets[4..], v) == NextByte(sextets, v)
  {
    var n := |sextets|;
    assert n % 4 == (n - 4) % 4;
    assert n % 4 != 0 ==> sextets[4..][n - 5] == sextets[n - 1];
  }

  lemma {:induction false} BytesNext(sextets: seq<sextet>, v: sextet)
    ensures Bytes(sextets + [v]) == Bytes(sextets) + NextByte(sextets, v)
  {
    if |sextets| == 0 {
    } else if |sextets| == 1 {
      NextAfterOne(sextets[0], v);
      assert sextets == [sextets[0]] && sextets + [v] == [sextets[0], v];
    } else if |sextets| == 2 {
      NextAfterTwo(sextets[0], sextets[1], v);
      assert sextets == [sextets[0], sextets[1]] && sextets + [v] == [sextets[0], sextets[1], v];
    } else if |sextets| == 3 {
      NextAfterThree(sextets[0], sextets[1], sextets[2], v);
      assert sextets == [sextets[0], sextets[1], sextets[2]];
      assert sextets + [v] == [sextets[0], sextets[1], sextets[2], v];
    } else {
      var rest, more := sextets[4..], sextets + [v];
      var group := [FirstByte(more[0], more[1]), SecondByte(more[1], more[2]), ThirdByte(more[2], more[3])];
      BytesNext(rest, v);
      NextByteOfRest(sextets, v);
      assert more[4..] == rest + [v];
      assert Bytes(more) == group + (Bytes(rest) + NextByte(sextets, v));
      assert Bytes(sextets) == group + Bytes(rest);
    }
  }

  function Count(s: string, n: nat): nat
    requires n <= |s|
  {
    |Symbols(s[..n])|
  }

  // An equals sign after the last symbol before n.
  ghost predicate PadSeen(s: string, n: nat)
    requires n <= |s|
  {
    exists m :: 0 <= m < n && s[m] == '=' && Count(s, m) == Count(s, n)
  }

  // The equals sign at n completes a group of three symbols, or of two with another sign.
  ghost predicate Completes(s: string, n: nat)
    requires n < |s|
  {
    s[n] == '=' && (Count(s, n) % 4 == 3 || (Count(s, n) % 4 == 2 && PadSeen(s, n)))
  }

  ghost predicate FirstCompletes(s: string, n: nat)
    requires n < |s|
  {
    Completes(s, n) && forall m :: 0 <= m < n ==> !Completes(s, m)
  }

  // The bytes of the symbols before the first equals sign that completes a group; without
  // one, of all symbols, if their groups of four are complete.
  ghost predicate IsDecoded(s: string, r: Option<seq<byte>>) {
    || (exists n :: 0 <= n < |s| && FirstCompletes(s, n) && r == Some(Bytes(Symbols(s[..n]))))
    || ((forall n :: 0 <= n < |s| ==> !Completes(s, n))
        && r == if |Symbols(s)| % 4 == 0 then Some(Bytes(Symbols(s))) else None)
  }

  lemma SymbolsNext(s: string, n: nat)
    requires n < |s|
    ensures Symbols(s[..n + 1]) == Symbols(s[..n]) + if Value(s[n]).Some? then [Value(s[n]).value] else []
  {
    assert s[..n + 1][..n] == s[..n];
  }

  lemma {:induction false} CountGrows(s: string, m: nat, n: nat)
    requires m <= n <= |s|
    ensures Count(s, m) <= Count(s, n)
    decreases n - m
  {
    if m < n {
      CountGrows(s, m, n - 1);
      SymbolsNext(s, n - 1);
    }
  }

  lemma PadSeenNext(s: string, n: nat)
    requires n < |s|
    ensures PadSeen(s, n + 1) <==> Value(s[n]).None? && (s[n] == '=' || PadSeen(s, n))
  {
    SymbolsNext(s, n);
    if Value(s[n]).Some? {
      forall m | 0 <= m < n + 1
        ensures Count(s, m) < Count(s, n + 1)
      {
        CountGrows(s, m, n);
      }
    } else if s[n] == '=' {
      assert Count(s, n) == Count(s, n + 1);
    } else if PadSeen(s, n) {
      var m :| 0 <= m < n && s[m] == '=' && Count(s, m) == Count(s, n);
      assert Count(s, m) == Count(s, n + 1);
    }
  }

  // The scan from n on, after the symbols before n.
  function ScanFrom(s: string, n: nat, pads: nat): Option<seq<byte>>
    requires n <= |s|
  {
    var read := Symbols(s[..n]);
    Scan(s[n..], |read| % 4, LeftOver(read), pads, Bytes(read))
  }

  lemma ScanNext(s: string, n: nat, pads: nat)
    requires n < |s| && s[n] != '=' && Value(s[n]).Some?
    ensures ScanFrom(s, n, pads) == ScanFrom(s, n + 1, 0)
  {
    var read, v := Symbols(s[..n]), Value(s[n]).value;
    SymbolsNext(s, n);
    BytesNext(read, v);
    PositionNext(read, v);
    ScanValue(s[n], v, s[n + 1..], |read| % 4, LeftOver(read), pads, Bytes(read));
    assert [s[n]] + s[n + 1..] == s[n..];
    assert Bytes(read) + [] == Bytes(read);
  }

  lemma ScanOther(s: string, n: nat, pads: nat)
    requires n < |s| && Value(s[n]).None?
    ensures s[n] != '=' ==> ScanFrom(s, n, pads) == ScanFrom(s, n + 1, pads)
    ensures s[n] == '=' ==> ScanFrom(s, n, pads) ==
                            var position := Count(s, n) % 4;
                            if position >= 2 && position + pads >= 3 then Some(Bytes(Symbols(s[..n])))
                            else ScanFrom(s, n + 1, if position >= 2 then pads + 1 else pads)
  {
    SymbolsNext(s, n);
    assert Symbols(s[..n + 1]) == Symbols(s[..n]) && s[n..][1..] == s[n + 1..];
  }

  ghost predicate PadsMatch(s: string, n: nat, pads: nat)
    requires n <= |s|
  {
    Count(s, n) % 4 >= 2 ==> (pads >= 1 <==> PadSeen(s, n))
  }

  lemma ScanStep(s: string, n: nat, pads: nat) returns (pads': nat)
    requires n < |s| && PadsMatch(s, n, pads) && !Completes(s, n)
    ensures PadsMatch(s, n + 1, pads') && ScanFrom(s, n, pads) == ScanFrom(s, n + 1, pads')
  {
    SymbolsNext(s, n);
    PadSeenNext(s, n);
    if Value(s[n]).Some? {
      ScanNext(s, n, pads);
      pads' := 0;
    } else {
      ScanOther(s, n, pads);
      pads' := if s[n] == '=' && Count(s, n) % 4 >= 2 then pads + 1 else pads;
    }
  }

  lemma {:induction false} ScanExactly(s: string, n: nat, pads: nat, r: Option<seq<byte>>)
    requires n <= |s| && PadsMatch(s, n, pads) && forall m :: 0 <= m < n ==> !Completes(s, m)
    requires r == ScanFrom(s, n, pads)
    ensures IsDecoded(s, r)
    decreases |s| - n
  {
    if n == |s| {
      assert s[..n] == s && s[n..] == "";
    } else if Completes(s, n) {
      ScanOther(s, n, pads);
      assert FirstCompletes(s, n);
    } else {
      var pads' := ScanStep(s, n, pads);
      ScanExactly(s, n + 1, pads', r);
    }
  }

  lemma AsciiExactly(value: string, padded: string)
    requires value <= padded && forall i :: |value| <= i < |padded| ==> padded[i] == '='
    ensures (exists i :: 0 <= i < |padded| && padded[i] >= 128 as char) <==> exists c :: c in value && c as int >= 128
  {
    if c :| c in value && c as int >= 128 {
      var i :| 0 <= i < |value| && value[i] == c;
      assert padded[i] >= 128 as char;
    }
    if i :| 0 <= i < |padded| && padded[i] >= 128 as char {
      assert value[i] in value;
    }
  }

  lemma PaddedExactly(value: string, padded: string)
    requires value <= padded && |padded| % 4 == 0 && |padded| < |value| + 4
    requires forall i :: |value| <= i < |padded| ==> padded[i] == '='
    ensures padded == value + Padding(|value|)
  {
    PaddingOf(|value|);
  }

  lemma ScanStart(s: string)
    ensures ScanFrom(s, 0, 0) == Scan(s, 0, 0, 0, []) && Count(s, 0) == 0
  {
    assert Bytes([]) == [] && s[0..] == s;
  }

  // Any text: refused unless it is ASCII, and then read with the padding put back.
  lemma DecodeExactly(value: string, padded: string)
    requires value <= padded && |padded| % 4 == 0 && |padded| < |value| + 4
    requires forall i :: |value| <= i < |padded| ==> padded[i] == '='
    ensures if exists c :: c in value && c as int >= 128 then Decode(value) == None
            else IsDecoded(padded, Decode(value))
  {
    PaddedExactly(value, padded);
    AsciiExactly(value, padded);
    ScanStart(padded);
    ScanExactly(padded, 0, 0, ScanFrom(padded, 0, 0));
  }
}
