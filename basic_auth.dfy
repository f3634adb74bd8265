/**
 * The `Authorization` value of HTTP Basic authentication (section 2 of
 * RFC 7617): the scheme name `Basic`, one space, and the base64 encoding
 * of the UTF-8 octets of `user-id ":" password`.
 */
module BasicAuth {
  import opened Wrappers
  import opened Bytes
  import Base64

  const COLON: byte := 0x3A
  const SCHEME: string := "Basic "

  /** The UTF-8 octets of one Unicode scalar value. */
  function Utf8Char(c: char): (r: seq<byte>)
    ensures 1 <= |r| <= 4
    ensures (c as int < 0x80) == (|r| == 1)
    ensures |r| == 1 ==> r[0] == c as int
    ensures |r| > 1 ==> forall k :: 0 <= k < |r| ==> r[k] >= 0x80
  {
    var cp := c as int;
    if cp < 0x80 then [cp]
    else if cp < 0x800 then [0xC0 + cp / 0x40, 0x80 + cp % 0x40]
    else if cp < 0x1_0000 then [0xE0 + cp / 0x1000, 0x80 + (cp / 0x40) % 0x40, 0x80 + cp % 0x40]
    else [0xF0 + cp / 0x4_0000, 0x80 + (cp / 0x1000) % 0x40, 0x80 + (cp / 0x40) % 0x40, 0x80 + cp % 0x40]
  }

  /** The UTF-8 octets of a Rust `String`. */
  function Utf8(s: string): seq<byte>
  {
    if s == [] then [] else Utf8Char(s[0]) + Utf8(s[1..])
  }

  lemma {:induction false} Utf8Concat(s: string, t: string)
    ensures Utf8(s + t) == Utf8(s) + Utf8(t)
  {
    if s == [] {
      assert s + t == t;
    } else {
      assert (s + t)[1..] == s[1..] + t;
      Utf8Concat(s[1..], t);
    }
  }

  /** A colon octet in UTF-8 text can only come from a colon character. */
  lemma {:induction false} Utf8NoColon(s: string)
    requires ':' !in s
    ensures COLON !in Utf8(s)
  {
    if s != [] {
      assert s[0] in s;
      assert ':' !in s[1..] by { assert forall k :: 0 <= k < |s[1..]| ==> s[1..][k] == s[k + 1]; }
      Utf8NoColon(s[1..]);
    }
  }

  /** `format!("{}:{}", user, password)` as octets. */
  function UserPass(user: string, password: string): seq<byte>
  {
    Utf8(user + ":" + password)
  }

  /** `format!("Basic {}", STANDARD.encode(format!("{}:{}", user, password)))` */
  function Authorization(user: string, password: string): string
  {
    SCHEME + Base64.Encode(UserPass(user, password))
  }

  /**
   * Text that `HeaderValue::from_str` accepts: visible ASCII, space and tab.
   * On such text the `parse().unwrap()` that builds the header cannot panic.
   */
  predicate IsHeaderValueText(v: string)
  {
    forall k :: 0 <= k < |v| ==> (' ' <= v[k] <= '~') || v[k] == '\t'
  }

  /** The credential value is always a valid header value. */
  lemma AuthorizationIsHeaderValue(user: string, password: string)
    ensures IsHeaderValueText(Authorization(user, password))
    ensures |Authorization(user, password)| == |SCHEME| + 4 * ((|UserPass(user, password)| + 2) / 3)
  {
  }

  /** Splits octets at their first colon. */
  function SplitAtColon(b: seq<byte>): (r: Option<(seq<byte>, seq<byte>)>)
    ensures r.None? <==> COLON !in b
    ensures r.Some? ==> b == r.value.0 + [COLON] + r.value.1 && COLON !in r.value.0
  {
    if b == [] then None
    else if b[0] == COLON then Some(([], b[1..]))
    else
      match SplitAtColon(b[1..])
      case None => None
      case Some(parts) => Some(([b[0]] + parts.0, parts.1))
  }

  /** What a server does with the header: the user-id octets and the password octets. */
  function ParseAuthorization(v: string): Option<(seq<byte>, seq<byte>)>
  {
    if |v| < |SCHEME| || v[..|SCHEME|] != SCHEME then None
    else
      match Base64.Decode(v[|SCHEME|..])
      case None => None
      case Some(b) => SplitAtColon(b)
  }

  lemma {:induction false} SplitAtColonOf(x: seq<byte>, y: seq<byte>)
    requires COLON !in x
    ensures SplitAtColon(x + [COLON] + y) == Some((x, y))
  {
    if x == [] {
      assert x + [COLON] + y == [COLON] + y;
    } else {
      assert (x + [COLON] + y)[1..] == x[1..] + [COLON] + y;
      assert x[0] in x;
      assert COLON !in x[1..] by {
        assert forall k :: 0 <= k < |x[1..]| ==> x[1..][k] == x[k + 1];
      }
      SplitAtColonOf(x[1..], y);
      assert [x[0]] + x[1..] == x;
    }
  }

  /**
   * A server recovers exactly the configured credentials from the header,
   * provided the user-id has no colon (section 2 of RFC 7617 forbids one;
   * the password may contain colons).
   */
  lemma AuthorizationRoundTrip(user: string, password: string)
    requires ':' !in user
    ensures ParseAuthorization(Authorization(user, password)) == Some((Utf8(user), Utf8(password)))
  {
    var v := Authorization(user, password);
    assert v[..|SCHEME|] == SCHEME;
    assert v[|SCHEME|..] == Base64.Encode(UserPass(user, password));
    Base64.DecodeEncode(UserPass(user, password));
    Utf8Concat(user + ":", password);
    Utf8Concat(user, ":");
    assert Utf8(":") == [COLON];
    Utf8NoColon(user);
    SplitAtColonOf(Utf8(user), Utf8(password));
  }
}
