/** The `btoa`/`atob` bridge of `blocks.ts`: standard base64, made URL-safe by two substitutions and
    by dropping the padding (section 5 of RFC 4648), and the way back through the forgiving decoder. */
module Base64Url {
  import opened Prelude

  type Byte = b: int | 0 <= b < 256 witness 0
  type Sextet = n: int | 0 <= n < 64 witness 0

  // ---- alphabet ------------------------------------------------------------

  function SextetChar(n: Sextet): char {
    if n < 26 then 'A' + n as char
    else if n < 52 then 'a' + (n - 26) as char
    else if n < 62 then '0' + (n - 52) as char
    else if n == 62 then '+' else '/'
  }

  function CharSextet(c: char): Option<Sextet> {
    if 'A' <= c <= 'Z' then Some(c as int - 'A' as int)
    else if 'a' <= c <= 'z' then Some(c as int - 'a' as int + 26)
    else if '0' <= c <= '9' then Some(c as int - '0' as int + 52)
    else if c == '+' then Some(62) else if c == '/' then Some(63) else None
  }

  function Chars(ns: seq<Sextet>): (s: string)
    ensures |s| == |ns| && forall i :: 0 <= i < |ns| ==> s[i] == SextetChar(ns[i])
  {
    seq(|ns|, i requires 0 <= i < |ns| => SextetChar(ns[i]))
  }

  // ---- groups of three bytes ------------------------------------------------

  /** The sextets of the bytes, a partial last group filled with zero bits. */
  function ToSextets(bytes: seq<Byte>): (ns: seq<Sextet>)
    ensures |ns| == (4 * |bytes| + 2) / 3
  {
    if |bytes| == 0 then []
    else if |bytes| == 1 then [bytes[0] / 4, bytes[0] % 4 * 16]
    else if |bytes| == 2 then [bytes[0] / 4, bytes[0] % 4 * 16 + bytes[1] / 16, bytes[1] % 16 * 4]
    else [bytes[0] / 4, bytes[0] % 4 * 16 + bytes[1] / 16, bytes[1] % 16 * 4 + bytes[2] / 64, bytes[2] % 64]
         + ToSextets(bytes[3..])
  }

  /** The whole bytes of the sextets; the bits left over are discarded. */
  function FromSextets(ns: seq<Sextet>): seq<Byte> {
    if |ns| < 2 then []
    else if |ns| == 2 then [First(ns[0], ns[1])]
    else if |ns| == 3 then [First(ns[0], ns[1]), Second(ns[1], ns[2])]
    else [First(ns[0], ns[1]), Second(ns[1], ns[2]), Third(ns[2], ns[3])] + FromSextets(ns[4..])
  }

  function First(a: int, b: int): Byte
    requires 0 <= a < 64 && 0 <= b < 64
  {
    a * 4 + b / 16
  }

  function Second(a: int, b: int): Byte
    requires 0 <= a < 64 && 0 <= b < 64
  {
    a % 16 * 16 + b / 4
  }

  function Third(a: int, b: int): Byte
    requires 0 <= a < 64 && 0 <= b < 64
  {
    a % 4 * 64 + b
  }

  /** The four sextets of three bytes give the three bytes back. */
  lemma GroupInverse(x: Byte, y: Byte, z: Byte)
    ensures First(x / 4, x % 4 * 16 + y / 16) == x == First(x / 4, x % 4 * 16)
    ensures Second(x % 4 * 16 + y / 16, y % 16 * 4 + z / 64) == y == Second(x % 4 * 16 + y / 16, y % 16 * 4)
    ensures Third(y % 16 * 4 + z / 64, z % 64) == z
  {
  }

  lemma {:induction false} SextetsInverse(bytes: seq<Byte>)
    ensures FromSextets(ToSextets(bytes)) == bytes
  {
    hide First, Second, Third;
    var ns := ToSextets(bytes);
    if |bytes| == 1 {
      GroupInverse(bytes[0], 0, 0);
    } else if |bytes| == 2 {
      GroupInverse(bytes[0], bytes[1], 0);
    } else if |bytes| >= 3 {
      GroupInverse(bytes[0], bytes[1], bytes[2]);
      assert ns[4..] == ToSextets(bytes[3..]);
      SextetsInverse(bytes[3..]);
      assert bytes == [bytes[0], bytes[1], bytes[2]] + bytes[3..];
    }
  }

  // ---- btoa and atob -------------------------------------------------------

  function Equals(n: nat): (s: string)
    ensures |s| == n && forall i :: 0 <= i < n ==> s[i] == '='
  {
    if n == 0 then "" else "=" + Equals(n - 1)
  }

  /** `btoa`. */
  function Btoa(bytes: seq<Byte>): string {
    Chars(ToSextets(bytes)) + Equals((3 - |bytes| % 3) % 3)
  }

  function DropEquals(s: string, most: nat): (t: string)
    ensures |t| <= |s| && t == s[..|t|]
  {
    if most > 0 && s != "" && s[|s| - 1] == '=' then DropEquals(s[..|s| - 1], most - 1) else s
  }

  /** The text without its padding: at most two signs, where they fill the last group. */
  function Unpadded(s: string): string {
    if |s| % 4 == 0 then DropEquals(s, 2) else s
  }

  /** `atob`: padding is optional, one stray sextet or a foreign character is refused. */
  function Atob(s: string): Option<seq<Byte>> {
    var t := Unpadded(s);
    if |t| % 4 == 1 || exists i :: 0 <= i < |t| && CharSextet(t[i]).None? then None
    else Some(FromSextets(Sextets(t)))
  }

  function Sextets(t: string): (ns: seq<Sextet>)
    requires forall i :: 0 <= i < |t| ==> CharSextet(t[i]).Some?
    ensures |ns| == |t| && forall i :: 0 <= i < |t| ==> CharSextet(t[i]) == Some(ns[i])
  {
    seq(|t|, i requires 0 <= i < |t| => CharSextet(t[i]).value)
  }

  lemma {:induction false} DropEqualsExact(body: string, n: nat, most: nat)
    requires n <= most && (body != "" ==> body[|body| - 1] != '=')
    ensures DropEquals(body + Equals(n), most) == body
  {
    hide Equals;
    if n == 0 {
      NoPad(body);
    } else {
      PadSnoc(body, n);
      DropEqualsExact(body, n - 1, most - 1);
    }
  }

  lemma NoPad(body: string)
    ensures body + Equals(0) == body
  {
  }

  lemma PadSnoc(body: string, n: nat)
    requires n > 0
    ensures var s := body + Equals(n);
            s != "" && s[|s| - 1] == '=' && s[..|s| - 1] == body + Equals(n - 1)
  {
    hide Equals;
  }

  /** A character of the standard alphabet. */
  predicate InAlphabet(c: char) {
    c != '=' && c != '-' && c != '_' && CharSextet(c).Some?
  }

  lemma CharsInAlphabet(ns: seq<Sextet>)
    ensures forall i :: 0 <= i < |ns| ==> InAlphabet(Chars(ns)[i]) && CharSextet(Chars(ns)[i]) == Some(ns[i])
  {
  }

  lemma AtobOfBtoa(bytes: seq<Byte>)
    ensures Atob(Btoa(bytes)) == Some(bytes)
  {
    hide CharSextet, FromSextets, ToSextets, DropEquals;
    var ns := ToSextets(bytes);
    var body, pad := Chars(ns), (3 - |bytes| % 3) % 3;
    CharsInAlphabet(ns);
    assert body != "" ==> InAlphabet(body[|body| - 1]);
    PadLength(|bytes|, |body|);
    DropEqualsExact(body, pad, 2);
    assert Sextets(body) == ns;
    SextetsInverse(bytes);
  }

  // ---- the URL-safe form ---------------------------------------------------

  function Swap(c: char, from: char, to: char): char {
    if c == from then to else c
  }

  /** Plus becomes a hyphen and the slash an underscore; the function after it goes back. */
  function ToUrl(s: string): (t: string)
    ensures |t| == |s| && forall i :: 0 <= i < |s| ==> t[i] == Swap(Swap(s[i], '+', '-'), '/', '_')
  {
    seq(|s|, i requires 0 <= i < |s| => Swap(Swap(s[i], '+', '-'), '/', '_'))
  }

  function FromUrl(s: string): (t: string)
    ensures |t| == |s| && forall i :: 0 <= i < |s| ==> t[i] == Swap(Swap(s[i], '-', '+'), '_', '/')
  {
    seq(|s|, i requires 0 <= i < |s| => Swap(Swap(s[i], '-', '+'), '_', '/'))
  }

  /** `base64UrlEncode` on the encoded bytes. */
  function Encode(bytes: seq<Byte>): string {
    var url := ToUrl(Btoa(bytes));
    DropEquals(url, |url|)
  }

  /** `base64UrlDecode` up to the decoded bytes. */
  function Decode(token: string): Option<seq<Byte>> {
    Atob(FromUrl(token) + Equals((4 - |token| % 4) % 4))
  }

  predicate IsUrlChar(c: char) {
    'A' <= c <= 'Z' || 'a' <= c <= 'z' || '0' <= c <= '9' || c == '_' || c == '-'
  }

  lemma EncodeBody(bytes: seq<Byte>)
    ensures Encode(bytes) == ToUrl(Chars(ToSextets(bytes)))
  {
    hide ToSextets, CharSextet, DropEquals;
    var body, pad := Chars(ToSextets(bytes)), (3 - |bytes| % 3) % 3;
    CharsInAlphabet(ToSextets(bytes));
    assert ToUrl(Btoa(bytes)) == ToUrl(body) + Equals(pad);
    assert body != "" ==> InAlphabet(body[|body| - 1]);
    DropEqualsExact(ToUrl(body), pad, |body| + pad);
  }

  /** The two substitutions undo each other on the standard alphabet. */
  lemma UrlInverse(body: string)
    requires forall i :: 0 <= i < |body| ==> body[i] != '-' && body[i] != '_'
    ensures FromUrl(ToUrl(body)) == body
  {
  }

  lemma PadLength(bytes: nat, body: nat)
    requires body == (4 * bytes + 2) / 3
    ensures (4 - body % 4) % 4 == (3 - bytes % 3) % 3 <= 2
    ensures (body + (3 - bytes % 3) % 3) % 4 == 0 && body % 4 != 1
  {
    var q := bytes / 3;
    assert body == 4 * q + (4 * (bytes % 3) + 2) / 3;
  }

  /** Restoring the padding restores exactly what `btoa` wrote. */
  lemma PaddingRestored(bytes: seq<Byte>)
    ensures var token := Encode(bytes);
            FromUrl(token) + Equals((4 - |token| % 4) % 4) == Btoa(bytes)
  {
    hide ToSextets, CharSextet, Encode;
    var body := Chars(ToSextets(bytes));
    EncodeBody(bytes);
    CharsInAlphabet(ToSextets(bytes));
    assert forall i :: 0 <= i < |body| ==> InAlphabet(body[i]);
    UrlInverse(body);
    PadLength(|bytes|, |body|);
  }

  /** Every byte string survives the URL-safe round trip, and its token is of URL-safe characters. */
  lemma DecodeOfEncode(bytes: seq<Byte>)
    ensures Decode(Encode(bytes)) == Some(bytes)
    ensures forall i :: 0 <= i < |Encode(bytes)| ==> IsUrlChar(Encode(bytes)[i])
    ensures bytes != [] ==> Encode(bytes) != ""
  {
    hide ToSextets, Encode, Btoa, Atob;
    PaddingRestored(bytes);
    AtobOfBtoa(bytes);
    EncodeBody(bytes);
    CharsInAlphabet(ToSextets(bytes));
    assert forall i :: 0 <= i < |Encode(bytes)| ==> InAlphabet(Chars(ToSextets(bytes))[i]);
  }

  // ---- the standard's own terms --------------------------------------------

  /** Table 2 of RFC 4648: the capitals, the small letters, the digits, the hyphen and the underscore. */
  ghost predicate StandsFor(c: char, n: nat) {
    || ('A' <= c <= 'Z' && n == c as int - 'A' as int)
    || ('a' <= c <= 'z' && n == 26 + c as int - 'a' as int)
    || ('0' <= c <= '9' && n == 52 + c as int - '0' as int)
    || (c == '-' && n == 62) || (c == '_' && n == 63)
  }

  /** The byte at the position, zero bits standing in for one that is missing. */
  function ByteAt(bytes: seq<Byte>, i: nat): nat {
    if i < |bytes| then bytes[i] else 0
  }

  /** A group of three bytes as one 24-bit word. */
  function GroupWord(bytes: seq<Byte>, group: nat): nat {
    65536 * ByteAt(bytes, 3 * group) + 256 * ByteAt(bytes, 3 * group + 1) + ByteAt(bytes, 3 * group + 2)
  }

  /** One of the four six-bit digits of a 24-bit word, the most significant first. */
  function WordDigit(word: nat, place: nat): (n: nat)
    requires place < 4
    ensures n < 64
  {
    match place
    case 0 => word / 262144 % 64
    case 1 => word / 4096 % 64
    case 2 => word / 64 % 64
    case 3 => word % 64
  }

  lemma AlphabetIsStandard(n: Sextet)
    ensures StandsFor(Swap(Swap(SextetChar(n), '+', '-'), '/', '_'), n)
  {
  }

  lemma DigitsOfWord(a: nat, b: nat, c: nat, d: nat)
    requires a < 64 && b < 64 && c < 64 && d < 64
    ensures var word := 262144 * a + 4096 * b + 64 * c + d;
            WordDigit(word, 0) == a && WordDigit(word, 1) == b && WordDigit(word, 2) == c && WordDigit(word, 3) == d
  {
    var word := 262144 * a + 4096 * b + 64 * c + d;
    assert word / 64 == 4096 * a + 64 * b + c;
    assert word / 4096 == 64 * a + b;
    assert word / 262144 == a;
  }

  lemma GroupDigits(x: nat, y: nat, z: nat)
    requires x < 256 && y < 256 && z < 256
    ensures var word := 65536 * x + 256 * y + z;
            && WordDigit(word, 0) == x / 4 && WordDigit(word, 1) == x % 4 * 16 + y / 16
            && WordDigit(word, 2) == y % 16 * 4 + z / 64 && WordDigit(word, 3) == z % 64
  {
    hide WordDigit;
    DigitsOfWord(x / 4, x % 4 * 16 + y / 16, y % 16 * 4 + z / 64, z % 64);
  }

  lemma FirstGroup(bytes: seq<Byte>)
    ensures forall j :: 0 <= j < |ToSextets(bytes)| && j < 4 ==>
              ToSextets(bytes)[j] == WordDigit(GroupWord(bytes, 0), j)
  {
    hide WordDigit;
    GroupDigits(ByteAt(bytes, 0), ByteAt(bytes, 1), ByteAt(bytes, 2));
  }

  lemma LaterGroups(bytes: seq<Byte>, group: nat)
    requires group > 0 && |bytes| >= 3
    ensures GroupWord(bytes[3..], group - 1) == GroupWord(bytes, group)
    ensures ToSextets(bytes)[4..] == ToSextets(bytes[3..])
  {
  }

  lemma {:induction false} SextetsAreDigits(bytes: seq<Byte>, group: nat, place: nat)
    requires place < 4 && 4 * group + place < |ToSextets(bytes)|
    ensures ToSextets(bytes)[4 * group + place] == WordDigit(GroupWord(bytes, group), place)
  {
    hide WordDigit, GroupWord, ToSextets;
    if group == 0 {
      FirstGroup(bytes);
    } else {
      LaterGroups(bytes, group);
      SextetsAreDigits(bytes[3..], group - 1, place);
      assert ToSextets(bytes)[4 * group + place] == ToSextets(bytes)[4..][4 * (group - 1) + place];
    }
  }

  /** Each character of a token is the standard's character for the next six bits, the last group filled with
      zero bits, and no padding is left. */
  lemma EncodeIsStandard(bytes: seq<Byte>)
    ensures |Encode(bytes)| == (4 * |bytes| + 2) / 3
    ensures forall group: nat, place: nat :: place < 4 && 4 * group + place < |Encode(bytes)| ==>
              StandsFor(Encode(bytes)[4 * group + place], WordDigit(GroupWord(bytes, group), place))
  {
    hide ToSextets, Encode, WordDigit, GroupWord, SextetChar, Swap, StandsFor;
    EncodeBody(bytes);
    forall group: nat, place: nat | place < 4 && 4 * group + place < |Encode(bytes)|
      ensures StandsFor(Encode(bytes)[4 * group + place], WordDigit(GroupWord(bytes, group), place))
    {
      SextetsAreDigits(bytes, group, place);
      AlphabetIsStandard(ToSextets(bytes)[4 * group + place]);
    }
  }

  // ---- which tokens decode -------------------------------------------------

  lemma UrlCharsRead(token: string)
    requires forall i :: 0 <= i < |token| ==> IsUrlChar(token[i])
    ensures forall i :: 0 <= i < |token| ==> FromUrl(token)[i] != '=' && CharSextet(FromUrl(token)[i]).Some?
  {
  }

  lemma {:induction false} BytesCount(ns: seq<Sextet>)
    requires |ns| % 4 != 1
    ensures |FromSextets(ns)| == |ns| * 3 / 4
  {
    if |ns| >= 4 { BytesCount(ns[4..]); }
  }

  /** A token of URL-safe characters decodes exactly when no single character is left over, to three bytes for
      every four characters. */
  lemma DecodesExactly(token: string)
    requires forall i :: 0 <= i < |token| ==> IsUrlChar(token[i])
    ensures Decode(token).Some? <==> |token| % 4 != 1
    ensures Decode(token).Some? ==> |Decode(token).value| == |token| * 3 / 4
  {
    hide FromSextets, DropEquals, CharSextet, Atob;
    var body, pad := FromUrl(token), (4 - |token| % 4) % 4;
    UrlCharsRead(token);
    if pad <= 2 {
      PaddedReads(body, pad);
      BytesCount(Sextets(body));
    } else {
      LeftOverRefused(body);
    }
  }

  lemma PaddedReads(body: string, pad: nat)
    requires forall i :: 0 <= i < |body| ==> body[i] != '=' && CharSextet(body[i]).Some?
    requires pad <= 2 && (|body| + pad) % 4 == 0
    ensures Atob(body + Equals(pad)) == Some(FromSextets(Sextets(body)))
  {
    hide FromSextets, DropEquals, CharSextet;
    DropEqualsExact(body, pad, 2);
  }

  lemma LeftOverRefused(body: string)
    requires |body| % 4 == 1 && body[|body| - 1] != '='
    ensures Atob(body + Equals(3)).None?
  {
    DropEqualsMost(body, 3);
    var t := Unpadded(body + Equals(3));
    assert t[|body|] == '=' && CharSextet(t[|body|]).None?;
  }

  /** Three signs of padding are one too many. */
  lemma DropEqualsMost(body: string, pad: nat)
    requires pad == 3 && (body != "" ==> body[|body| - 1] != '=')
    ensures DropEquals(body + Equals(pad), 2) == body + "="
  {
    PadSnoc(body, 3);
    PadSnoc(body, 2);
    assert DropEquals(body + Equals(3), 2) == DropEquals(body + Equals(2), 1);
    assert DropEquals(body + Equals(2), 1) == DropEquals(body + Equals(1), 0);
    assert Equals(1) == "=";
  }
}
