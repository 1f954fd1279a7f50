/** The credentials of an HTTP `Authorization` header in the Basic scheme:
    the prefix `Basic `, then the Base64 encoding of the UTF-8 octets of
    `user:password`, split at the first colon as section 2 of RFC 7617 says. */
module BasicAuth {
  import opened Wrappers
  import Base64
  import Utf8
  import opened Bytes

  const Prefix: string := "Basic "

  predicate HasBasicPrefix(header: string)
  {
    |header| >= |Prefix| && header[..|Prefix|] == Prefix
  }

  /** The text of `s` up to its first space. */
  function UpToSpace(s: string): (t: string)
    ensures |t| <= |s| && t == s[..|t|]
    ensures ' ' !in t
    ensures |t| < |s| ==> s[|t|] == ' '
  {
    if s == [] || s[0] == ' ' then [] else [s[0]] + UpToSpace(s[1..])
  }

  /** The second field of the header split at every space: the token that
      follows the prefix. */
  function Token(header: string): string
    requires HasBasicPrefix(header)
  {
    UpToSpace(header[|Prefix|..])
  }

  /** `s` split at its first colon, or None when it holds no colon. The
      password part may itself hold colons. */
  function SplitAtFirstColon(s: string): (r: Option<(string, string)>)
    ensures r.None? <==> ':' !in s
    ensures r.Some? ==> ':' !in r.value.0 && s == r.value.0 + ":" + r.value.1
  {
    if s == [] then None
    else if s[0] == ':' then Some(([], s[1..]))
    else
      match SplitAtFirstColon(s[1..])
      case None => None
      case Some((user, password)) => Some(([s[0]] + user, password))
  }

  /** A user part without a colon is recovered exactly, whatever the password holds. */
  lemma {:induction false} SplitJoined(user: string, password: string)
    requires ':' !in user
    ensures SplitAtFirstColon(user + ":" + password) == Some((user, password))
  {
    var s := user + ":" + password;
    if user == [] {
      assert s[0] == ':' && s[1..] == password;
    } else {
      assert s[0] == user[0] && s[1..] == user[1..] + ":" + password;
      SplitJoined(user[1..], password);
      assert user == [user[0]] + user[1..];
    }
  }

  /** The (user, password) pair a header carries, or None when the header is
      not in the Basic format: a wrong prefix, a token that is not Base64, octets
      that are not UTF-8, or text without a colon. */
  function ParseCredentials(header: string): (r: Option<(string, string)>)
    ensures !HasBasicPrefix(header) ==> r.None?
    ensures r.Some? ==> ':' !in r.value.0
  {
    if !HasBasicPrefix(header) then None
    else
      match Base64.Decode(Token(header))
      case None => None
      case Some(octets) =>
        match Utf8.Decode(octets)
        case None => None
        case Some(text) => SplitAtFirstColon(text)
  }

  /** The header a client sends for `user` and `password`. */
  function EncodeCredentials(user: string, password: string): string
  {
    Prefix + Base64.Encode(Utf8.Encode(user + ":" + password))
  }

  /** A header built from a user without a colon parses back to the same pair. */
  lemma ParseEncoded(user: string, password: string)
    requires ':' !in user
    ensures ParseCredentials(EncodeCredentials(user, password)) == Some((user, password))
  {
    var text := user + ":" + password;
    var octets := Utf8.Encode(text);
    var token := Base64.Encode(octets);
    var header := EncodeCredentials(user, password);
    assert header[|Prefix|..] == token;
    Base64.CharsHaveNoSpace(Base64.EncodeSextets(octets));
    assert Token(header) == token;
    Base64.DecodeEncode(octets);
    Utf8.DecodeEncode(text);
    SplitJoined(user, password);
  }

  /** A header that parses is the encoding of what it carries, followed by
      nothing or by a space and whatever comes after it. */
  lemma EncodedParsed(header: string)
    requires ParseCredentials(header).Some?
    ensures var (user, password) := ParseCredentials(header).value;
      var encoded := EncodeCredentials(user, password);
      |encoded| <= |header| && header[..|encoded|] == encoded &&
      (|encoded| < |header| ==> header[|encoded|] == ' ')
  {
    var token := Token(header);
    var octets := Base64.Decode(token).value;
    var text := Utf8.Decode(octets).value;
    var (user, password) := ParseCredentials(header).value;
    Base64.EncodeDecode(token);
    Utf8.EncodeDecode(octets);
    assert text == user + ":" + password;
    assert EncodeCredentials(user, password) == Prefix + token;
    assert header == Prefix + header[|Prefix|..];
  }
}
