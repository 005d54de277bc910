/** The security utilities: the hex rendering of a SHA-256 digest (hashString) and the splitting
    of an HTTP Basic `Authorization` header into a username and a hashed password
    (decodeAuthHeader). SHA-256 and Base64 are library calls and enter as function values. */
module Security {
  import opened Models

  /** A Java `byte`: a signed 8-bit value, as `MessageDigest.digest` returns them. */
  newtype JavaByte = x: int | -128 <= x < 128

  /** The two library functions the utilities rely on. `sha256` is `getBytes` followed by
      `MessageDigest.digest`; `base64Decode` is `Base64.getDecoder().decode` followed by
      `new String(...)`, with `None` for input the decoder rejects. */
  datatype Crypto = Crypto(sha256: string -> seq<JavaByte>, base64Decode: string -> Option<string>)

  /** What decodeAuthHeader returns: the username and the hex hash of the password. */
  datatype Credentials = Credentials(username: string, passwordHash: string)

  /** `0xff & b`: the byte's eight bits read as an unsigned number. */
  function Unsigned(b: JavaByte): (u: int)
    ensures 0 <= u < 256
  {
    if b < 0 then b as int + 256 else b as int
  }

  /** The byte whose eight bits read as u: the inverse of Unsigned. */
  function Signed(u: int): (b: JavaByte)
    requires 0 <= u < 256
    ensures Unsigned(b) == u
  {
    if u < 128 then u as JavaByte else (u - 256) as JavaByte
  }

  const HexDigits: string := "0123456789abcdef"

  function HexDigit(d: int): char
    requires 0 <= d < 16
  {
    HexDigits[d]
  }

  /** The value of a lower-case hex digit. */
  function HexValue(c: char): (d: int)
    requires c in HexDigits
    ensures 0 <= d < 16 && HexDigit(d) == c
  {
    if '0' <= c <= '9' then c as int - '0' as int else c as int - 'a' as int + 10
  }

  /** `Integer.toHexString` of a number in [0, 256): lower-case digits, no leading zero. */
  function ToHexString(n: int): (h: string)
    requires 0 <= n < 256
    ensures 1 <= |h| <= 2 && IsHex(h)
    ensures |h| == 1 <==> n < 16
    ensures |h| == 2 ==> h[0] != '0'
  {
    if n < 16 then [HexDigit(n)] else [HexDigit(n / 16), HexDigit(n % 16)]
  }

  /** Every character of s is a lower-case hex digit. */
  predicate IsHex(s: string)
  {
    forall c :: c in s ==> c in HexDigits
  }

  /** One digest byte as hashString appends it: `toHexString(0xff & b)`, after a '0' when that
      gave a single digit. The result is always two hex digits. */
  function ByteHex(b: JavaByte): (h: string)
    ensures |h| == 2 && IsHex(h)
  {
    var hex := ToHexString(Unsigned(b));
    (if |hex| == 1 then "0" else "") + hex
  }

  /** The two digits of ByteHex are those of the unsigned value, high digit first, and the
      first is '0' exactly when the value is below 16. */
  lemma ByteHexDigits(b: JavaByte)
    ensures ByteHex(b) == [HexDigit(Unsigned(b) / 16), HexDigit(Unsigned(b) % 16)]
    ensures ByteHex(b)[0] == '0' <==> Unsigned(b) < 16
  {
  }

  /** The string hashString builds from a digest. */
  function HexEncode(bs: seq<JavaByte>): (hex: string)
    ensures |hex| == 2 * |bs|
    ensures IsHex(hex)
  {
    if bs == [] then "" else HexEncode(bs[..|bs| - 1]) + ByteHex(bs[|bs| - 1])
  }

  /** hashString: the digest of the input, rendered byte by byte into a growing string. */
  method HashString(sha256: string -> seq<JavaByte>, input: string) returns (hex: string)
    ensures hex == HexEncode(sha256(input))
  {
    var hash := sha256(input);
    hex := "";
    for i := 0 to |hash|
      invariant hex == HexEncode(hash[..i])
    {
      var b := hash[i];
      var digits := ToHexString(Unsigned(b));
      if |digits| == 1 {
        hex := hex + "0";
      }
      hex := hex + digits;
      assert hash[..i + 1][..i] == hash[..i];
    }
    assert hash[..|hash|] == hash;
  }

  /** Characters 2i and 2i+1 of the encoding are the two digits of byte i. */
  lemma {:induction false} HexEncodeAt(bs: seq<JavaByte>, i: int)
    requires 0 <= i < |bs|
    ensures HexEncode(bs)[2 * i] == ByteHex(bs[i])[0]
    ensures HexEncode(bs)[2 * i + 1] == ByteHex(bs[i])[1]
  {
    var init := bs[..|bs| - 1];
    var prefix := HexEncode(init);
    assert HexEncode(bs) == prefix + ByteHex(bs[|bs| - 1]);
    if i < |bs| - 1 {
      HexEncodeAt(init, i);
      assert init[i] == bs[i];
    }
  }

  /** The byte a pair of hex digits stands for, high digit first. */
  function PairValue(hi: char, lo: char): JavaByte
    requires hi in HexDigits && lo in HexDigits
  {
    Signed(16 * HexValue(hi) + HexValue(lo))
  }

  /** Reads pairs of hex digits back into bytes: the inverse of HexEncode. */
  function HexDecode(s: string): (bs: seq<JavaByte>)
    requires |s| % 2 == 0 && IsHex(s)
    ensures 2 * |bs| == |s|
  {
    seq(|s| / 2, i requires 0 <= i < |s| / 2 => PairValue(s[2 * i], s[2 * i + 1]))
  }

  /** The digit pair of a byte reads back as that byte. */
  lemma ByteHexDecodes(b: JavaByte)
    ensures ByteHex(b)[0] in HexDigits && ByteHex(b)[1] in HexDigits
    ensures PairValue(ByteHex(b)[0], ByteHex(b)[1]) == b
  {
    ByteHexDigits(b);
    var u := Unsigned(b);
    assert HexDigit(u / 16) in HexDigits && HexDigit(u % 16) in HexDigits;
    HexDigitInjective(HexValue(ByteHex(b)[0]), u / 16);
    HexDigitInjective(HexValue(ByteHex(b)[1]), u % 16);
  }

  lemma HexDigitInjective(d: int, e: int)
    requires 0 <= d < 16 && 0 <= e < 16 && HexDigit(d) == HexDigit(e)
    ensures d == e
  {
  }

  /** Byte i of the decoding is read from characters 2i and 2i+1. */
  lemma HexDecodeAt(s: string, i: int)
    requires |s| % 2 == 0 && IsHex(s) && 0 <= 2 * i && 2 * i + 1 < |s|
    ensures s[2 * i] in HexDigits && s[2 * i + 1] in HexDigits
    ensures i < |HexDecode(s)| && HexDecode(s)[i] == PairValue(s[2 * i], s[2 * i + 1])
  {
    assert s[2 * i] in s && s[2 * i + 1] in s;
  }

  /** The digit pair at 2i and 2i+1 of the encoding reads back as byte i. */
  lemma HexEncodePairAt(bs: seq<JavaByte>, i: int)
    requires 0 <= i < |bs|
    ensures 2 * i + 1 < |HexEncode(bs)|
    ensures HexEncode(bs)[2 * i] in HexDigits && HexEncode(bs)[2 * i + 1] in HexDigits
    ensures PairValue(HexEncode(bs)[2 * i], HexEncode(bs)[2 * i + 1]) == bs[i]
  {
    HexEncodeAt(bs, i);
    ByteHexDecodes(bs[i]);
  }

  /** Byte i survives encoding and decoding. */
  lemma HexDecodeEncodeAt(bs: seq<JavaByte>, i: int)
    requires 0 <= i < |bs|
    ensures |HexEncode(bs)| % 2 == 0
    ensures i < |HexDecode(HexEncode(bs))| && HexDecode(HexEncode(bs))[i] == bs[i]
  {
    var s := HexEncode(bs);
    assert |s| == 2 * |bs|;
    HexDecodeAt(s, i);
    HexEncodePairAt(bs, i);
  }

  /** Decoding the hex string hashString produces gives the digest back. */
  lemma HexDecodeEncode(bs: seq<JavaByte>)
    ensures HexDecode(HexEncode(bs)) == bs
  {
    var s := HexEncode(bs);
    assert |s| % 2 == 0 && 2 * |HexDecode(s)| == 2 * |bs|;
    forall i | 0 <= i < |bs|
      ensures HexDecode(s)[i] == bs[i]
    {
      HexDecodeEncodeAt(bs, i);
    }
  }

  /** Different digests never give the same hex string. */
  lemma HexEncodeInjective(a: seq<JavaByte>, b: seq<JavaByte>)
    requires HexEncode(a) == HexEncode(b)
    ensures a == b
  {
    HexDecodeEncode(a);
    HexDecodeEncode(b);
  }

  /** The position of the first c in s. */
  function FirstIndex(s: string, c: char): (k: nat)
    requires c in s
    ensures k < |s| && s[k] == c && c !in s[..k]
  {
    if s[0] == c then 0
    else
      var k := FirstIndex(s[1..], c);
      assert s[..k + 1] == [s[0]] + s[1..][..k];
      k + 1
  }

  /** The text before the first c, or all of s when it holds none. */
  function Before(s: string, c: char): (t: string)
    ensures c !in t
  {
    if c in s then s[..FirstIndex(s, c)] else s
  }

  /** The text after the first c. */
  function After(s: string, c: char): string
    requires c in s
  {
    s[FirstIndex(s, c) + 1..]
  }

  /** In `u + [c] + t` with no c in u, the first c is the one after u. */
  lemma FirstIndexAfter(u: string, c: char, t: string)
    requires c !in u
    ensures c in u + [c] + t
    ensures FirstIndex(u + [c] + t, c) == |u|
    ensures Before(u + [c] + t, c) == u && After(u + [c] + t, c) == t
  {
    var s := u + [c] + t;
    assert s[|u|] == c;
    assert s[..|u|] == u;
    assert s[|u| + 1..] == t;
  }

  /** The pieces of s between the occurrences of c, empty pieces included. */
  function Pieces(s: string, c: char): (ps: seq<string>)
    ensures |ps| >= 1 && ps[0] == Before(s, c)
    ensures forall i :: 0 <= i < |ps| ==> c !in ps[i]
    decreases |s|
  {
    if c in s then [s[..FirstIndex(s, c)]] + Pieces(After(s, c), c) else [s]
  }

  /** The pieces joined again with c between neighbours. */
  function Join(ps: seq<string>, c: char): string
    requires |ps| >= 1
  {
    if |ps| == 1 then ps[0] else ps[0] + [c] + Join(ps[1..], c)
  }

  /** Splitting loses no text: joining the pieces gives s back. */
  lemma {:induction false} JoinPieces(s: string, c: char)
    ensures Join(Pieces(s, c), c) == s
    decreases |s|
  {
    if c in s {
      var k := FirstIndex(s, c);
      var ps := Pieces(s, c);
      assert ps[1..] == Pieces(After(s, c), c);
      JoinPieces(After(s, c), c);
      assert s == s[..k] + [c] + s[k + 1..];
    }
  }

  /** The trailing empty strings removed, as `split` does when no limit is given. */
  function DropTrailingEmpty(ps: seq<string>): (r: seq<string>)
    ensures r <= ps
    ensures r != [] ==> r[|r| - 1] != ""
    ensures forall i :: |r| <= i < |ps| ==> ps[i] == ""
  {
    if ps != [] && ps[|ps| - 1] == "" then DropTrailingEmpty(ps[..|ps| - 1]) else ps
  }

  /** `String.split` with a one-character separator: the whole string when the separator does
      not occur; otherwise the pieces with the trailing empty ones dropped. */
  function JavaSplit(s: string, c: char): (parts: seq<string>)
    ensures forall i :: 0 <= i < |parts| ==> c !in parts[i]
    ensures c !in s ==> parts == [s]
  {
    if c in s then DropTrailingEmpty(Pieces(s, c)) else [s]
  }

  /** Some character of s is not c. */
  predicate HasOtherThan(s: string, c: char)
  {
    exists j :: 0 <= j < |s| && s[j] != c
  }

  /** Every string of ps is empty. */
  predicate AllEmpty(ps: seq<string>)
  {
    forall i :: 0 <= i < |ps| ==> ps[i] == ""
  }

  /** Every piece is empty exactly when s consists of separators only. */
  lemma {:induction false} PiecesAllEmpty(s: string, c: char)
    ensures AllEmpty(Pieces(s, c)) <==> !HasOtherThan(s, c)
    decreases |s|
  {
    var ps := Pieces(s, c);
    if c in s {
      var k := FirstIndex(s, c);
      var rest := After(s, c);
      var q := Pieces(rest, c);
      assert ps == [s[..k]] + q;
      PiecesAllEmpty(rest, c);
      if AllEmpty(ps) {
        assert k == 0 by { assert ps[0] == s[..k]; }
        assert AllEmpty(q) by {
          forall i | 0 <= i < |q| ensures q[i] == "" { assert q[i] == ps[i + 1]; }
        }
        forall j | 0 <= j < |s| ensures s[j] == c {
          if j > 0 { assert s[j] == rest[j - 1]; }
        }
      } else {
        var i :| 0 <= i < |ps| && ps[i] != "";
        if i == 0 {
          assert s[0] == s[..k][0];
        } else {
          assert q[i - 1] == ps[i];
          var j :| 0 <= j < |rest| && rest[j] != c;
          assert s[k + 1 + j] == rest[j];
        }
      }
    } else {
      assert ps == [s];
      if s != [] {
        assert ps[0] != "";
        assert s[0] != c;
      }
    }
  }

  /** The split of s at c has two or more parts exactly when s holds a c and something other
      than c after it; the first two parts are then the text before the first c and the text
      between the first and the second c (or the end). */
  lemma SplitFirstTwo(s: string, c: char)
    requires c in s
    ensures |JavaSplit(s, c)| >= 2 <==> HasOtherThan(After(s, c), c)
    ensures |JavaSplit(s, c)| >= 2 ==>
      JavaSplit(s, c)[0] == Before(s, c) && JavaSplit(s, c)[1] == Before(After(s, c), c)
  {
    if |JavaSplit(s, c)| >= 2 {
      SplitHasTwoParts(s, c);
    }
    if HasOtherThan(After(s, c), c) {
      OtherAfterSeparatorGivesTwoParts(s, c);
    }
  }

  /** Two or more parts: there is something other than c after the first c, and the first two
      parts are the text before the first c and the text up to the next c. */
  lemma SplitHasTwoParts(s: string, c: char)
    requires c in s && |JavaSplit(s, c)| >= 2
    ensures HasOtherThan(After(s, c), c)
    ensures JavaSplit(s, c)[0] == Before(s, c) && JavaSplit(s, c)[1] == Before(After(s, c), c)
  {
    var ps := Pieces(s, c);
    var rest := Pieces(After(s, c), c);
    assert ps == [s[..FirstIndex(s, c)]] + rest;
    var r := JavaSplit(s, c);
    assert r == DropTrailingEmpty(ps);
    PiecesAllEmpty(After(s, c), c);
    assert ps[|r| - 1] == r[|r| - 1] && rest[|r| - 2] == ps[|r| - 1];
    assert r[0] == ps[0] && r[1] == ps[1] == rest[0];
    assert rest[|r| - 2] != "";
  }

  /** Something other than c after the first c leaves at least two parts. */
  lemma OtherAfterSeparatorGivesTwoParts(s: string, c: char)
    requires c in s && HasOtherThan(After(s, c), c)
    ensures |JavaSplit(s, c)| >= 2
  {
    var ps := Pieces(s, c);
    var rest := Pieces(After(s, c), c);
    assert ps == [s[..FirstIndex(s, c)]] + rest;
    assert JavaSplit(s, c) == DropTrailingEmpty(ps);
    PiecesAllEmpty(After(s, c), c);
    var i :| 0 <= i < |rest| && rest[i] != "";
    assert ps[i + 1] == rest[i];
  }

  /** The token after the first space, up to the next space: the second element of
      `header.split(" ")` when there is one. */
  function Token(header: string): string
    requires ' ' in header
  {
    Before(After(header, ' '), ' ')
  }

  /** decodeAuthHeader. A missing header, a header with no second token, a token the decoder
      rejects and decoded text with fewer than two parts at ':' each end in an exception;
      otherwise the first part is the username and the second part is hashed. */
  function DecodeAuthHeader(crypto: Crypto, header: Option<string>): (r: Outcome<Credentials>)
    ensures header.None? ==> r.Error?
    ensures r.Success? ==> ':' !in r.value.username && IsHex(r.value.passwordHash)
  {
    if header.None? then Error
    else
      var credentials := JavaSplit(header.value, ' ');
      if |credentials| < 2 then Error
      else
        match crypto.base64Decode(credentials[1])
        case None => Error
        case Some(decoded) =>
          var parts := JavaSplit(decoded, ':');
          if |parts| < 2 then Error
          else Success(Credentials(parts[0], HexEncode(crypto.sha256(parts[1]))))
  }

  /** The header has a second token, and the decoder accepts it. */
  predicate Decodable(crypto: Crypto, header: string)
  {
    ' ' in header && HasOtherThan(After(header, ' '), ' ') && crypto.base64Decode(Token(header)).Some?
  }

  /** When decodeAuthHeader succeeds, and what it returns: the text before the first ':' of the
      decoded token as the username, and the hash of the text between the first and the second
      ':' (anything after a second ':' is dropped). It never throws exactly when the token
      decodes to text with a ':' followed by something other than ':'. */
  lemma DecodeAuthHeaderSpec(crypto: Crypto, header: string)
    ensures DecodeAuthHeader(crypto, Some(header)).Success? <==>
      && Decodable(crypto, header)
      && var decoded := crypto.base64Decode(Token(header)).value;
         ':' in decoded && HasOtherThan(After(decoded, ':'), ':')
    ensures DecodeAuthHeader(crypto, Some(header)).Success? ==>
      var decoded := crypto.base64Decode(Token(header)).value;
      DecodeAuthHeader(crypto, Some(header)).value ==
        Credentials(Before(decoded, ':'), HexEncode(crypto.sha256(Before(After(decoded, ':'), ':'))))
  {
    if ' ' in header {
      SplitFirstTwo(header, ' ');
      if |JavaSplit(header, ' ')| >= 2 {
        var decoded := crypto.base64Decode(Token(header));
        if decoded.Some? && ':' in decoded.value {
          SplitFirstTwo(decoded.value, ':');
        }
      }
    }
  }

  /** `Basic <token>` with a token free of spaces: the token is what gets decoded. */
  lemma BasicHeaderToken(token: string)
    requires token != [] && ' ' !in token
    ensures ' ' in "Basic " + token
    ensures HasOtherThan(After("Basic " + token, ' '), ' ') && Token("Basic " + token) == token
  {
    assert "Basic " + token == "Basic" + [' '] + token;
    FirstIndexAfter("Basic", ' ', token);
    assert token[0] != ' ';
  }

  /** Decoded credentials with nothing after the ':' throw rather than hash an empty password,
      because the trailing empty part is dropped by the split. */
  lemma NothingAfterColonFails(crypto: Crypto, header: string, username: string)
    requires Decodable(crypto, header)
    requires crypto.base64Decode(Token(header)) == Some(username + ":")
    requires ':' !in username
    ensures DecodeAuthHeader(crypto, Some(header)) == Error
  {
    DecodeAuthHeaderSpec(crypto, header);
    assert username + ":" == username + [':'] + "";
    FirstIndexAfter(username, ':', "");
  }

  /** Whatever follows a second ':' plays no part: `user:pass:extra` authenticates as
      `user:pass`. */
  lemma SecondColonDropped(crypto: Crypto, header: string, username: string, password: string, extra: string)
    requires Decodable(crypto, header)
    requires crypto.base64Decode(Token(header)) == Some(username + ":" + password + ":" + extra)
    requires ':' !in username && ':' !in password && password != ""
    ensures DecodeAuthHeader(crypto, Some(header)) ==
      Success(Credentials(username, HexEncode(crypto.sha256(password))))
  {
    var decoded := username + ":" + password + ":" + extra;
    var rest := password + ":" + extra;
    assert decoded == username + [':'] + rest;
    FirstIndexAfter(username, ':', rest);
    assert rest == password + [':'] + extra;
    FirstIndexAfter(password, ':', extra);
    assert rest[0] == password[0] && password[0] != ':';
    DecodeAuthHeaderSpec(crypto, header);
  }
}
