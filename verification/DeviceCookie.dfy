/** The signed device cookie: v1.<base64url host>.<expiry>.<hex signature>.

    Strings are bytes. The keyed hash is a parameter: any function to byte strings. */
module DeviceCookie {
  import opened Text

  const TTL := 900

  type Mac = (string, string) -> string

  predicate IsByte(c: char) {
    c as int < 256
  }

  predicate Bytes(s: string) {
    forall i :: 0 <= i < |s| ==> IsByte(s[i])
  }

  function Byte(n: nat): (c: char)
    requires n < 256
    ensures IsByte(c) && c as int == n
  {
    n as char
  }

  // ---- base64url without padding (section 5 of RFC 4648) ----

  function Enc6(n: nat): (c: char)
    requires n < 64
    ensures Dec6(c) == Some(n) && Printable(c)
  {
    if n < 26 then ('A' as int + n) as char
    else if n < 52 then ('a' as int + (n - 26)) as char
    else if n < 62 then ('0' as int + (n - 52)) as char
    else if n == 62 then '-'
    else '_'
  }

  function Dec6(c: char): (r: Option<nat>)
    ensures r.Some? ==> r.value < 64
  {
    if 'A' <= c <= 'Z' then Some(c as int - 'A' as int)
    else if 'a' <= c <= 'z' then Some(c as int - 'a' as int + 26)
    else if '0' <= c <= '9' then Some(c as int - '0' as int + 52)
    else if c == '-' then Some(62)
    else if c == '_' then Some(63)
    else None
  }

  /** Neither a separator nor a line break. */
  predicate Printable(c: char) {
    c != '.' && c != '\r' && c != '\n'
  }

  const ZERO := 0 as char

  /** Three bytes cut into four groups of six bits. */
  function Six1(a: char): (n: nat)
    requires IsByte(a)
    ensures n < 64
  {
    a as int / 4
  }

  function Six2(a: char, b: char): (n: nat)
    requires IsByte(a) && IsByte(b)
    ensures n < 64
  {
    a as int % 4 * 16 + b as int / 16
  }

  function Six3(b: char, c: char): (n: nat)
    requires IsByte(b) && IsByte(c)
    ensures n < 64
  {
    b as int % 16 * 4 + c as int / 64
  }

  function Six4(c: char): (n: nat)
    requires IsByte(c)
    ensures n < 64
  {
    c as int % 64
  }

  function Encode(s: string): string
    requires Bytes(s)
  {
    if |s| == 0 then ""
    else if |s| == 1 then [Enc6(Six1(s[0])), Enc6(Six2(s[0], ZERO))]
    else if |s| == 2 then [Enc6(Six1(s[0])), Enc6(Six2(s[0], s[1])), Enc6(Six3(s[1], ZERO))]
    else [Enc6(Six1(s[0])), Enc6(Six2(s[0], s[1])), Enc6(Six3(s[1], s[2])), Enc6(Six4(s[2]))] + Encode(s[3..])
  }

  /** The alphabet in ASCII codes, and the 24 bits of a group as one number. */
  lemma AlphabetCodes(n: nat)
    requires n < 64
    ensures Enc6(n) as int == if n < 26 then 65 + n else if n < 52 then 71 + n else if n < 62 then n - 4 else if n == 62 then 45 else 95
  {
  }

  lemma SameNumber(a: char, b: char, c: char)
    requires IsByte(a) && IsByte(b) && IsByte(c)
    ensures 65536 * (a as int) + 256 * (b as int) + c as int == 262144 * Six1(a) + 4096 * Six2(a, b) + 64 * Six3(b, c) + Six4(c)
  {
    var x, y, z := a as int, b as int, c as int;
    assert x == x / 4 * 4 + x % 4 && y == y / 16 * 16 + y % 16 && z == z / 64 * 64 + z % 64;
  }

  /** There is no padding: four letters for three bytes, rounded up. */
  lemma {:induction false} EncodeLength(s: string)
    requires Bytes(s)
    ensures |Encode(s)| == (4 * |s| + 2) / 3
    decreases |s|
  {
    if |s| > 2 {
      EncodeLength(s[3..]);
    }
  }

  function Join2(x: nat, y: nat): char
    requires x < 64 && y < 64
  {
    Byte(x * 4 + y / 16)
  }

  function Join3(y: nat, z: nat): char
    requires y < 64 && z < 64
  {
    Byte(y % 16 * 16 + z / 4)
  }

  function Join4(z: nat, w: nat): char
    requires z < 64 && w < 64
  {
    Byte(z % 4 * 64 + w)
  }

  /** Groups of four letters; the last may have two or three. */
  function DecodeGroups(s: string): Option<string>
    decreases |s|
  {
    if s == "" then Some("")
    else if |s| == 1 || Dec6(s[0]).None? || Dec6(s[1]).None? then None
    else
      var x, y := Dec6(s[0]).value, Dec6(s[1]).value;
      if |s| == 2 then Some([Join2(x, y)])
      else if Dec6(s[2]).None? then None
      else
        var z := Dec6(s[2]).value;
        if |s| == 3 then Some([Join2(x, y), Join3(y, z)])
        else if Dec6(s[3]).None? then None
        else
          match DecodeGroups(s[4..])
          case None => None
          case Some(rest) => Some([Join2(x, y), Join3(y, z), Join4(z, Dec6(s[3]).value)] + rest)
  }

  function DropBreaks(s: string): string {
    if s == "" then ""
    else if s[0] == '\r' || s[0] == '\n' then DropBreaks(s[1..])
    else [s[0]] + DropBreaks(s[1..])
  }

  /** The decoder skips line breaks. */
  function Decode(s: string): Option<string> {
    DecodeGroups(DropBreaks(s))
  }

  lemma Rejoined(a: char, b: char, c: char)
    requires IsByte(a) && IsByte(b) && IsByte(c)
    ensures Join2(Six1(a), Six2(a, b)) == a && Join3(Six2(a, b), Six3(b, c)) == b && Join4(Six3(b, c), Six4(c)) == c
  {
    assert Six2(a, b) / 16 == a as int % 4 && Six2(a, b) % 16 == b as int / 16;
    assert Six3(b, c) / 4 == b as int % 16 && Six3(b, c) % 4 == c as int / 64;
  }

  lemma ShortDecodes(x: nat, y: nat, z: nat)
    requires x < 64 && y < 64 && z < 64
    ensures DecodeGroups([Enc6(x), Enc6(y)]) == Some([Join2(x, y)])
    ensures DecodeGroups([Enc6(x), Enc6(y), Enc6(z)]) == Some([Join2(x, y), Join3(y, z)])
  {
  }

  lemma OneRoundTrip(a: char)
    requires IsByte(a)
    ensures DecodeGroups(Encode([a])) == Some([a])
  {
    var x, y := Six1(a), Six2(a, ZERO);
    assert Encode([a]) == [Enc6(x), Enc6(y)];
    ShortDecodes(x, y, 0);
    Rejoined(a, ZERO, ZERO);
  }

  lemma TwoRoundTrip(a: char, b: char)
    requires IsByte(a) && IsByte(b)
    ensures DecodeGroups(Encode([a, b])) == Some([a, b])
  {
    var x, y, z := Six1(a), Six2(a, b), Six3(b, ZERO);
    assert Encode([a, b]) == [Enc6(x), Enc6(y), Enc6(z)];
    ShortDecodes(x, y, z);
    Rejoined(a, b, ZERO);
  }

  /** One full group in front. */
  lemma GroupDecodes(x: nat, y: nat, z: nat, w: nat, rest: string)
    requires x < 64 && y < 64 && z < 64 && w < 64 && DecodeGroups(rest).Some?
    ensures DecodeGroups([Enc6(x), Enc6(y), Enc6(z), Enc6(w)] + rest) ==
            Some([Join2(x, y), Join3(y, z), Join4(z, w)] + DecodeGroups(rest).value)
  {
    var s := [Enc6(x), Enc6(y), Enc6(z), Enc6(w)] + rest;
    assert s[4..] == rest;
    assert s[0] == Enc6(x) && s[1] == Enc6(y) && s[2] == Enc6(z) && s[3] == Enc6(w);
  }

  lemma ThreeInFront(s: string)
    requires |s| > 2
    ensures s == [s[0], s[1], s[2]] + s[3..]
  {
  }

  /** A whole group of three bytes in front of what decodes. */
  lemma ThreeRoundTrip(a: char, b: char, c: char, tail: string)
    requires Bytes([a, b, c] + tail) && Bytes(tail) && DecodeGroups(Encode(tail)) == Some(tail)
    ensures DecodeGroups(Encode([a, b, c] + tail)) == Some([a, b, c] + tail)
  {
    var s := [a, b, c] + tail;
    assert s[0] == a && s[1] == b && s[2] == c && s[3..] == tail;
    Rejoined(a, b, c);
    GroupDecodes(Six1(a), Six2(a, b), Six3(b, c), Six4(c), Encode(tail));
  }

  lemma {:induction false} GroupsRoundTrip(s: string)
    requires Bytes(s)
    ensures DecodeGroups(Encode(s)) == Some(s)
    decreases |s|
  {
    if |s| == 1 {
      OneRoundTrip(s[0]);
      assert s == [s[0]];
    } else if |s| == 2 {
      TwoRoundTrip(s[0], s[1]);
      assert s == [s[0], s[1]];
    } else if |s| > 2 {
      GroupsRoundTrip(s[3..]);
      ThreeInFront(s);
      ThreeRoundTrip(s[0], s[1], s[2], s[3..]);
    }
  }

  predicate AllPrintable(s: string) {
    forall i :: 0 <= i < |s| ==> Printable(s[i])
  }

  lemma {:induction false} EncodePrintable(s: string)
    requires Bytes(s)
    ensures AllPrintable(Encode(s))
    decreases |s|
  {
    if |s| > 2 {
      EncodePrintable(s[3..]);
    }
  }

  lemma {:induction false} NoBreaks(s: string)
    requires AllPrintable(s)
    ensures DropBreaks(s) == s
  {
    if s != "" {
      NoBreaks(s[1..]);
    }
  }

  /** Decoding undoes encoding, for every byte string. */
  lemma DecodeEncoded(s: string)
    requires Bytes(s)
    ensures Decode(Encode(s)) == Some(s)
  {
    GroupsRoundTrip(s);
    EncodePrintable(s);
    NoBreaks(Encode(s));
  }

  // ---- hexadecimal ----

  function HexDigit(n: nat): (c: char)
    requires n < 16
    ensures HexValue(c) == Some(n) && c != '.'
  {
    if n < 10 then ('0' as int + n) as char else ('a' as int + (n - 10)) as char
  }

  function HexValue(c: char): (r: Option<nat>)
    ensures r.Some? ==> r.value < 16
  {
    if '0' <= c <= '9' then Some(c as int - '0' as int)
    else if 'a' <= c <= 'f' then Some(c as int - 'a' as int + 10)
    else if 'A' <= c <= 'F' then Some(c as int - 'A' as int + 10)
    else None
  }

  /** Digits are read in either case. */
  lemma HexIgnoresCase(c: char)
    ensures HexValue(c) == HexValue(LowerChar(c))
  {
  }

  function HexEncode(s: string): (r: string)
    requires Bytes(s)
    ensures '.' !in r
  {
    if s == "" then "" else [HexDigit(s[0] as int / 16), HexDigit(s[0] as int % 16)] + HexEncode(s[1..])
  }

  /** Two lower-case digits for each byte, the high one first. */
  lemma {:induction false} HexDigits(s: string, i: nat)
    requires Bytes(s) && i < |s|
    ensures |HexEncode(s)| == 2 * |s|
    ensures HexEncode(s)[2 * i] == "0123456789abcdef"[s[i] as int / 16] && HexEncode(s)[2 * i + 1] == "0123456789abcdef"[s[i] as int % 16]
    decreases |s|
  {
    HexLetter(s[i] as int / 16);
    HexLetter(s[i] as int % 16);
    HexLength(s);
    if i > 0 {
      HexDigits(s[1..], i - 1);
    }
  }

  lemma {:induction false} HexLength(s: string)
    requires Bytes(s)
    ensures |HexEncode(s)| == 2 * |s|
  {
    if s != "" {
      HexLength(s[1..]);
    }
  }

  lemma HexLetter(n: nat)
    requires n < 16
    ensures HexDigit(n) == "0123456789abcdef"[n]
  {
  }

  function HexDecode(s: string): Option<string> {
    if s == "" then Some("")
    else if |s| == 1 || HexValue(s[0]).None? || HexValue(s[1]).None? then None
    else
      match HexDecode(s[2..])
      case None => None
      case Some(rest) => Some([Byte(HexValue(s[0]).value * 16 + HexValue(s[1]).value)] + rest)
  }

  lemma HexPair(hi: nat, lo: nat, rest: string)
    requires hi < 16 && lo < 16 && HexDecode(rest).Some?
    ensures HexDecode([HexDigit(hi), HexDigit(lo)] + rest) == Some([Byte(hi * 16 + lo)] + HexDecode(rest).value)
  {
    var s := [HexDigit(hi), HexDigit(lo)] + rest;
    assert s[2..] == rest && s[0] == HexDigit(hi) && s[1] == HexDigit(lo);
  }

  lemma {:induction false} HexRoundTrip(s: string)
    requires Bytes(s)
    ensures HexDecode(HexEncode(s)) == Some(s)
  {
    if s != "" {
      HexRoundTrip(s[1..]);
      HexPair(s[0] as int / 16, s[0] as int % 16, HexEncode(s[1..]));
      assert s == [s[0]] + s[1..];
    }
  }

  // ---- the message ----

  /** fmt.Sprintf("%d", n). */
  function DecInt(n: int): string {
    if n < 0 then "-" + Dec(-n) else Dec(n)
  }

  lemma DecIntChars(n: int, c: char)
    requires c != '-' && !IsDigit(c)
    ensures c !in DecInt(n)
  {
  }

  lemma ParseDecInt(n: int)
    requires -INT64_LIMIT <= n < INT64_LIMIT
    ensures ParseInt64(DecInt(n)) == Some(n)
  {
    if n >= 0 {
      ParseInt64Dec(n);
    } else {
      DecRoundTrip(-n);
      assert DecInt(n)[1..] == Dec(-n);
    }
  }

  lemma DecIntInjective(a: int, b: int)
    requires DecInt(a) == DecInt(b)
    ensures a == b
  {
    assert IsDigit(Dec(if a < 0 then -a else a)[0]) && IsDigit(Dec(if b < 0 then -b else b)[0]);
    if a < 0 {
      assert DecInt(a)[1..] == Dec(-a) && DecInt(b)[0] == '-';
      assert DecInt(b)[1..] == Dec(-b);
      DecRoundTrip(-a);
      DecRoundTrip(-b);
    } else {
      assert DecInt(b)[0] != '-';
      DecRoundTrip(a);
      DecRoundTrip(b);
    }
  }

  function Message(host: string, exp: int): string {
    "v1|" + host + "|" + DecInt(exp)
  }

  /** Host and expiry can be told apart, even in a host that contains the separator. */
  lemma MessageInjective(host1: string, exp1: int, host2: string, exp2: int)
    requires Message(host1, exp1) == Message(host2, exp2)
    ensures host1 == host2 && exp1 == exp2
  {
    MessageParts(host1, exp1);
    MessageParts(host2, exp2);
    var m, k := Message(host1, exp1), |"v1|" + host1|;
    assert |"v1|" + host2| == k;
    assert host1 == m[3..k] && host2 == m[3..k];
    DecIntInjective(exp1, exp2);
  }

  lemma MessageParts(host: string, exp: int)
    ensures var m, k := Message(host, exp), |"v1|" + host|;
            LastIndexOf(m, '|') == k && m[..3] == "v1|" && m[3..k] == host && m[k + 1..] == DecInt(exp)
  {
    DecIntChars(exp, '|');
    LastIndexOfConcat("v1|" + host, '|', DecInt(exp));
    var m, k := Message(host, exp), |"v1|" + host|;
    assert m == ("v1|" + host) + ['|'] + DecInt(exp);
    assert m[..k] == "v1|" + host;
  }

  // ---- minting and verifying ----

  predicate ControlChar(c: char) {
    c as int < 0x20 || c as int == 0x7f
  }

  predicate ValidHost(host: string) {
    var id := TrimSpace(host);
    && id != "" && |id| <= 256
    && '/' !in id && '\\' !in id && !Contains(id, "..")
    && id[0] != '.'
    && forall i :: 0 <= i < |id| ==> !ControlChar(id[i])
  }

  /** The same, character by character: after trimming 1 to 256 bytes, none of them below
      32 or 127 or a slash or backslash, no dot in front, and no two dots in a row. */
  ghost predicate GoodHost(host: string) {
    var id := TrimSpace(host);
    && 1 <= |id| <= 256 && id[0] != '.'
    && (forall i :: 0 <= i < |id| ==> id[i] as int >= 32 && id[i] as int != 127 && id[i] as int != 47 && id[i] as int != 92)
    && (forall i, j :: 0 <= i < |id| && j == i + 1 && j < |id| && id[i] == '.' ==> id[j] != '.')
  }

  lemma NoDots(id: string)
    ensures Contains(id, "..") <==> exists i, j :: 0 <= i < |id| && j == i + 1 && j < |id| && id[i] == '.' && id[j] == '.'
  {
    if Contains(id, "..") {
      var i :| 0 <= i <= |id| && ".." <= id[i..];
      assert id[i] == ".."[0] && id[i + 1] == ".."[1];
    }
    if i, j :| 0 <= i < |id| && j == i + 1 && j < |id| && id[i] == '.' && id[j] == '.' {
      assert id[i..][0] == '.' && id[i..][1] == '.';
      assert ".." <= id[i..];
    }
  }

  lemma ValidHostIff(host: string)
    ensures ValidHost(host) <==> GoodHost(host)
  {
    var id := TrimSpace(host);
    NoDots(id);
    assert '/' in id <==> exists i :: 0 <= i < |id| && id[i] as int == 47;
    assert '\\' in id <==> exists i :: 0 <= i < |id| && id[i] as int == 92;
  }

  function Mint(mac: Mac, host: string, secret: string, now: int): Option<string>
    requires Bytes(host) && Bytes(mac(secret, Message(host, now + TTL)))
  {
    if secret == "" || !ValidHost(host) then None
    else
      var exp := now + TTL;
      Some("v1" + "." + (Encode(host) + "." + (DecInt(exp) + "." + HexEncode(mac(secret, Message(host, exp))))))
  }

  function Verify(mac: Mac, value: string, secret: string, now: int): Option<string> {
    if value == "" || secret == "" then None
    else
      var parts := Split(value, '.');
      if |parts| != 4 || parts[0] != "v1" then None
      else
        match (Decode(parts[1]), ParseInt64(parts[2]), HexDecode(parts[3]))
        case (Some(host), Some(exp), Some(got)) =>
          if host == "" || now > exp || got != mac(secret, Message(host, exp)) then None else Some(host)
        case _ => None
  }

  lemma TwoParts(c: string, d: string)
    requires '.' !in c && '.' !in d
    ensures Split(c + "." + d, '.') == [c, d]
  {
    SplitHead(c, '.', d);
    SplitNone(d, '.');
  }

  /** The value has exactly the four parts it was made of. */
  lemma FourParts(a: string, b: string, c: string, d: string)
    requires '.' !in a && '.' !in b && '.' !in c && '.' !in d
    ensures Split(a + "." + (b + "." + (c + "." + d)), '.') == [a, b, c, d]
  {
    calc {
      Split(a + "." + (b + "." + (c + "." + d)), '.');
      { SplitHead(a, '.', b + "." + (c + "." + d)); }
      [a] + Split(b + "." + (c + "." + d), '.');
      { SplitHead(b, '.', c + "." + d); }
      [a] + ([b] + Split(c + "." + d, '.'));
      { TwoParts(c, d); }
      [a] + ([b] + [c, d]);
      [a, b, c, d];
    }
  }

  lemma MintedParts(mac: Mac, host: string, secret: string, now: int)
    requires Bytes(host) && Bytes(mac(secret, Message(host, now + TTL))) && secret != "" && ValidHost(host)
    ensures Split(Mint(mac, host, secret, now).value, '.') ==
            ["v1", Encode(host), DecInt(now + TTL), HexEncode(mac(secret, Message(host, now + TTL)))]
  {
    EncodePrintable(host);
    DecIntChars(now + TTL, '.');
    FourParts("v1", Encode(host), DecInt(now + TTL), HexEncode(mac(secret, Message(host, now + TTL))));
  }

  /** A minted cookie verifies to its host exactly until it expires, whatever the host;
      and minting succeeds exactly for a valid host and a secret. */
  lemma MintThenVerify(mac: Mac, host: string, secret: string, now: int, later: int)
    requires Bytes(host) && Bytes(mac(secret, Message(host, now + TTL)))
    requires -INT64_LIMIT <= now + TTL < INT64_LIMIT
    ensures var v := Mint(mac, host, secret, now);
            && (v.Some? <==> secret != "" && GoodHost(host))
            && (v.Some? ==> Verify(mac, v.value, secret, later) == if later <= now + 900 then Some(host) else None)
  {
    ValidHostIff(host);
    if secret != "" && ValidHost(host) {
      MintedParts(mac, host, secret, now);
      DecodeEncoded(host);
      ParseDecInt(now + TTL);
      HexRoundTrip(mac(secret, Message(host, now + TTL)));
      assert host != "";
    }
  }

  /** What an accepted value says it was signed for. */
  function ClaimedHost(value: string): Option<string> {
    var parts := Split(value, '.');
    if |parts| == 4 then Decode(parts[1]) else None
  }

  function ClaimedExpiry(value: string): Option<int> {
    var parts := Split(value, '.');
    if |parts| == 4 then ParseInt64(parts[2]) else None
  }

  /** Whatever text is accepted claims the host that is returned and an expiry that has
      not passed. If it carries the signature of a minted cookie, it is for that cookie's
      host and expiry, or the two signed messages are a collision of the keyed hash. */
  lemma AcceptedIsMinted(mac: Mac, value: string, secret: string, now: int, host: string, exp: int)
    requires Verify(mac, value, secret, now).Some?
    requires HexDecode(Split(value, '.')[3]) == Some(mac(secret, Message(host, exp)))
    ensures secret != "" && Split(value, '.')[0] == "v1" && ClaimedHost(value) == Verify(mac, value, secret, now) != Some("")
    ensures ClaimedExpiry(value).Some? && now <= ClaimedExpiry(value).value
    ensures var h, e := ClaimedHost(value).value, ClaimedExpiry(value).value;
            || (h == host && e == exp)
            || (Message(h, e) != Message(host, exp) && mac(secret, Message(h, e)) == mac(secret, Message(host, exp)))
  {
    var h, e := ClaimedHost(value).value, ClaimedExpiry(value).value;
    if Message(h, e) == Message(host, exp) {
      MessageInjective(h, e, host, exp);
    }
  }
}
