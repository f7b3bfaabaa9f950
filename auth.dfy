/**
  Extraction of a token from a request's Authorization header: the header
  must be present, must be text, and must start with the expected scheme
  prefix; the token is what follows the prefix.
 */
module Auth {
  import opened StdTypes

  /**
    An octet of a header value, Rust's `u8`. Header text is compared with
    characters by numeric value, so the octet is an integer in 0..255 rather
    than a `bv8`: conversions between bit-vectors and integers are costly to
    reason about, and nothing here needs bitwise operations.
   */
  newtype Octet = x: int | 0 <= x < 256

  datatype ToStrError = MissingHeader | InvalidStr

  datatype TokenError = Token | ToStr(error: ToStrError)

  /** A request's view of its Authorization header: the raw value, if there is one. */
  datatype Authorization = Authorization(header: Option<seq<Octet>>)

  /**
    The rule by which the `http` crate's `HeaderValue::to_str` accepts a
    value: every byte is visible ASCII or a tab.
   */
  predicate IsText(v: seq<Octet>)
  {
    forall i :: 0 <= i < |v| ==> v[i] == 9 || 32 <= v[i] < 127
  }

  /** The header value read as a string, byte by byte. */
  function AsText(v: seq<Octet>): (s: string)
    ensures |s| == |v|
    ensures forall i :: 0 <= i < |v| ==> s[i] as int == v[i] as int
  {
    seq(|v|, i requires 0 <= i < |v| => (v[i] as int) as char)
  }

  /** Rust's `str::strip_prefix`. */
  function StripPrefix(s: string, prefix: string): (r: Option<string>)
    ensures r.Some? <==> prefix <= s
    ensures r.Some? ==> prefix + r.value == s
  {
    if |prefix| <= |s| && s[..|prefix|] == prefix then Some(s[|prefix|..]) else None
  }

  /** The header as text, failing when it is absent or not text. */
  function ToStrOf(a: Authorization): (r: Result<string, ToStrError>)
    ensures r == Err(MissingHeader) <==> a.header.None?
    ensures r == Err(InvalidStr) <==> a.header.Some? && !IsText(a.header.value)
    ensures r.Ok? ==> a.header.Some? && IsText(a.header.value) && r.value == AsText(a.header.value)
  {
    match a.header
    case None => Err(MissingHeader)
    case Some(h) => if IsText(h) then Ok(AsText(h)) else Err(InvalidStr)
  }

  /**
    The token after `prefix`. A failure to read the header as text is
    reported first, wrapped; a text that does not start with `prefix` fails
    with `Token`.
   */
  function TokenOf(a: Authorization, prefix: string): (r: Result<string, TokenError>)
    ensures ToStrOf(a).Err? ==> r == Err(ToStr(ToStrOf(a).error))
    ensures ToStrOf(a).Ok? ==> (r.Ok? <==> prefix <= ToStrOf(a).value)
    ensures r == Err(Token) <==> ToStrOf(a).Ok? && !(prefix <= ToStrOf(a).value)
    ensures r.Ok? ==> ToStrOf(a).Ok? && prefix + r.value == ToStrOf(a).value
  {
    match ToStrOf(a)
    case Err(e) => Err(ToStr(e))
    case Ok(s) =>
      match StripPrefix(s, prefix)
      case None => Err(Token)
      case Some(t) => Ok(t)
  }

  const BearerPrefix: string := "Bearer "

  /** The token of a bearer-scheme header. */
  function Bearer(a: Authorization): (r: Result<string, TokenError>)
    ensures r.Ok? <==> a.header.Some? && IsText(a.header.value) && BearerPrefix <= AsText(a.header.value)
    ensures r.Ok? ==> BearerPrefix + r.value == AsText(a.header.value)
    ensures ToStrOf(a).Err? ==> r == Err(ToStr(ToStrOf(a).error))
  {
    TokenOf(a, BearerPrefix)
  }

  /** Inverse direction of the token's round trip: a header `prefix + t` yields `t`. */
  lemma {:induction false} TokenOfJoined(a: Authorization, prefix: string, t: string)
    requires ToStrOf(a) == Ok(prefix + t)
    ensures TokenOf(a, prefix) == Ok(t)
  {
    assert (prefix + t)[..|prefix|] == prefix;
    assert (prefix + t)[|prefix|..] == t;
  }

  /** The header bytes of an ASCII string. */
  function Ascii(s: string): (v: seq<Octet>)
    requires forall i :: 0 <= i < |s| ==> s[i] < 128 as char
    ensures |v| == |s|
    ensures forall i :: 0 <= i < |s| ==> v[i] as int == s[i] as int
  {
    seq(|s|, i requires 0 <= i < |s| => (s[i] as int) as Octet)
  }

  lemma {:induction false} AsciiAsText(s: string)
    requires forall i :: 0 <= i < |s| ==> s[i] < 128 as char
    ensures AsText(Ascii(s)) == s
  {
    var v, t := Ascii(s), AsText(Ascii(s));
    forall i | 0 <= i < |s| ensures t[i] == s[i] {
      assert t[i] as int == v[i] as int == s[i] as int;
    }
  }

  /** `Authorization: Bearer 1234` yields the token `1234`. */
  lemma BearerOfExample()
    ensures Bearer(Authorization(Some(Ascii("Bearer 1234")))) == Ok("1234")
  {
    var v := Ascii("Bearer 1234");
    AsciiAsText("Bearer 1234");
    assert IsText(v);
    assert BearerPrefix + "1234" == "Bearer 1234";
    TokenOfJoined(Authorization(Some(v)), BearerPrefix, "1234");
  }

  /** The three failures, each for its own reason. */
  lemma BearerFailures()
    ensures Bearer(Authorization(None)) == Err(ToStr(MissingHeader))
    ensures Bearer(Authorization(Some([0x00]))) == Err(ToStr(InvalidStr))
    ensures Bearer(Authorization(Some(Ascii("Basic 1234")))) == Err(Token)
  {
    var nul: seq<Octet> := [0x00];
    assert nul[0] == 0 && !IsText(nul);
    var v := Ascii("Basic 1234");
    AsciiAsText("Basic 1234");
    assert IsText(v);
    assert "Basic 1234"[1] != BearerPrefix[1];
  }
}
