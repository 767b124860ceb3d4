/** The WebSocket authentication middleware of backend/chat_app/middlewares.py:
    the `Authorization` header of the handshake is read from the ASGI scope,
    a token is cut out of it the way the code does (a case-sensitive
    "Bearer" prefix, then the second piece of a split on single spaces), and
    the token is resolved to a user before the consumer runs.

    JWT validation is the parameter `tokenUserId`: None for a token that
    fails validation or carries no `user_id` claim. UTF-8 decoding of the
    header bytes is the parameter `decode`: None for a UnicodeDecodeError. */
module Middleware {
  import opened Common
  import opened UserModels

  /** One ASGI header: name bytes and value bytes. */
  type Header = (seq<Byte>, seq<Byte>)

  /** The bytes `b"authorization"`. */
  const AuthorizationKey: seq<Byte> := [97, 117, 116, 104, 111, 114, 105, 122, 97, 116, 105, 111, 110]

  const BearerPrefix := "Bearer"

  // ---------------------------------------------------------------------
  // dict(scope["headers"])

  /** `dict(pairs)`: every pair is stored in turn, so a later pair with the
      same name replaces an earlier one. */
  function HeaderMap(headers: seq<Header>): map<seq<Byte>, seq<Byte>>
    decreases |headers|
  {
    if headers == [] then map[]
    else HeaderMap(headers[..|headers| - 1])[headers[|headers| - 1].0 := headers[|headers| - 1].1]
  }

  /** A name is in the dict exactly when some header carries it, and its
      value is the one of the last header with that name. */
  lemma {:induction false} HeaderMapLookup(headers: seq<Header>, key: seq<Byte>)
    ensures key in HeaderMap(headers) <==> exists i :: 0 <= i < |headers| && headers[i].0 == key
    ensures key in HeaderMap(headers) ==>
      exists i :: 0 <= i < |headers| && headers[i].0 == key && HeaderMap(headers)[key] == headers[i].1 &&
        forall j :: i < j < |headers| ==> headers[j].0 != key
    decreases |headers|
  {
    if headers != [] {
      var n := |headers| - 1;
      var init := headers[..n];
      HeaderMapLookup(init, key);
      assert forall i :: 0 <= i < n ==> init[i] == headers[i];
      if headers[n].0 != key && key in HeaderMap(init) {
        var i :| 0 <= i < n && init[i].0 == key && HeaderMap(init)[key] == init[i].1 &&
          forall j :: i < j < n ==> init[j].0 != key;
        assert headers[i].0 == key && HeaderMap(headers)[key] == headers[i].1;
      }
      if headers[n].0 == key {
        assert HeaderMap(headers)[key] == headers[n].1;
      }
    }
  }

  // ---------------------------------------------------------------------
  // str.startswith and str.split(" ")

  predicate StartsWith(s: string, prefix: string) {
    |prefix| <= |s| && s[..|prefix|] == prefix
  }

  /** `s.split(" ")`: cut at every single space, keeping empty pieces, so
      there is always one piece more than there are spaces. */
  function SplitOnSpace(s: string): (r: seq<string>)
    ensures |r| >= 1
    ensures forall i :: 0 <= i < |r| ==> ' ' !in r[i]
    decreases |s|
  {
    if s == [] then [""]
    else
      var rest := SplitOnSpace(s[1..]);
      if s[0] == ' ' then [""] + rest else [[s[0]] + rest[0]] + rest[1..]
  }

  /** `" ".join(pieces)`. */
  function JoinWithSpace(pieces: seq<string>): string
    requires |pieces| >= 1
    decreases |pieces|
  {
    if |pieces| == 1 then pieces[0] else pieces[0] + " " + JoinWithSpace(pieces[1..])
  }

  /** Joining the pieces gives back the string. */
  lemma {:induction false} JoinSplit(s: string)
    ensures JoinWithSpace(SplitOnSpace(s)) == s
    decreases |s|
  {
    if s != [] {
      JoinSplit(s[1..]);
      var rest := SplitOnSpace(s[1..]);
      if s[0] == ' ' {
        assert ([""] + rest)[1..] == rest;
      } else {
        var r := [[s[0]] + rest[0]] + rest[1..];
        if |rest| > 1 {
          assert r[1..] == rest[1..];
          assert JoinWithSpace(rest) == rest[0] + " " + JoinWithSpace(rest[1..]);
        }
      }
    }
  }

  /** Splitting a join of space-free pieces gives back the pieces. */
  lemma {:induction false} SplitJoin(pieces: seq<string>)
    requires |pieces| >= 1
    requires forall i :: 0 <= i < |pieces| ==> ' ' !in pieces[i]
    ensures SplitOnSpace(JoinWithSpace(pieces)) == pieces
    decreases |pieces|
  {
    if |pieces| == 1 {
      SplitWord(pieces[0], "");
      assert pieces[0] + "" == pieces[0];
    } else {
      SplitJoin(pieces[1..]);
      var tail := JoinWithSpace(pieces[1..]);
      SplitAfterWord(pieces[0], tail);
      assert [pieces[0]] + pieces[1..] == pieces;
    }
  }

  /** A space-free word followed by nothing or by a space is the first piece. */
  lemma {:induction false} SplitWord(w: string, rest: string)
    requires ' ' !in w
    requires rest == [] || rest[0] == ' '
    ensures SplitOnSpace(w + rest) == [w + SplitOnSpace(rest)[0]] + SplitOnSpace(rest)[1..]
    ensures SplitOnSpace(rest)[0] == ""
    decreases |w|
  {
    if rest != [] {
      assert rest[0] == ' ';
      assert SplitOnSpace(rest) == [""] + SplitOnSpace(rest[1..]);
    }
    if w != [] {
      assert w[0] in w;
      var s := SplitOnSpace(rest);
      var r := SplitOnSpace(w[1..] + rest);
      assert (w + rest)[0] == w[0] && (w + rest)[1..] == w[1..] + rest;
      SplitWord(w[1..], rest);
      assert r[0] == w[1..] + s[0] && r[1..] == s[1..];
      assert SplitOnSpace(w + rest) == [[w[0]] + r[0]] + r[1..];
      assert [w[0]] + (w[1..] + s[0]) == w + s[0];
    } else {
      assert w + rest == rest;
    }
  }

  /** A space-free word, a space and anything: the word, then the pieces of the rest. */
  lemma SplitAfterWord(w: string, s: string)
    requires ' ' !in w
    ensures SplitOnSpace(w + " " + s) == [w] + SplitOnSpace(s)
  {
    var rest := " " + s;
    SplitWord(w, rest);
    assert w + " " + s == w + rest;
    assert rest[1..] == s;
    assert w + "" == w;
  }

  // ---------------------------------------------------------------------
  // The token

  /** The token the code cuts out of a decoded header: None unless the
      header starts with "Bearer"; then the second piece of the split, or
      None when there is no second piece (the IndexError). */
  function TokenFromHeader(h: string): Option<string> {
    if !StartsWith(h, BearerPrefix) then None
    else
      var pieces := SplitOnSpace(h);
      if |pieces| > 1 then Some(pieces[1]) else None
  }

  /** `h` reads word, space, `t`, then the end or another space. */
  predicate SecondPiece(h: string, first: string, t: string, rest: string) {
    h == first + " " + t + rest && ' ' !in first && ' ' !in t && (rest == [] || rest[0] == ' ')
  }

  /** The token is exactly the text between the first space and the next
      space (or the end), for a header that starts with "Bearer"; the
      prefix needs no space after it. */
  lemma TokenFromHeaderMeaning(h: string, t: string)
    ensures TokenFromHeader(h) == Some(t) <==>
      StartsWith(h, BearerPrefix) && exists first, rest :: SecondPiece(h, first, t, rest)
  {
    if TokenFromHeader(h) == Some(t) {
      TokenIsSecondPiece(h);
    }
    if StartsWith(h, BearerPrefix) && exists first, rest :: SecondPiece(h, first, t, rest) {
      var first, rest :| SecondPiece(h, first, t, rest);
      SecondPieceIsToken(h, first, t, rest);
    }
  }

  /** A join of two or more pieces: the first, a space, the second, then the rest. */
  lemma JoinFirstTwo(pieces: seq<string>)
    requires |pieces| > 1
    ensures JoinWithSpace(pieces) ==
      pieces[0] + " " + pieces[1] + (if |pieces| == 2 then "" else " " + JoinWithSpace(pieces[2..]))
  {
    var t := pieces[1];
    var rest := if |pieces| == 2 then "" else " " + JoinWithSpace(pieces[2..]);
    assert JoinWithSpace(pieces[1..]) == t + rest by {
      assert pieces[1..][0] == t;
      if |pieces| > 2 { assert pieces[1..][1..] == pieces[2..]; } else { assert t + "" == t; }
    }
    assert pieces[0] + " " + (t + rest) == pieces[0] + " " + t + rest;
  }

  lemma TokenIsSecondPiece(h: string)
    requires |SplitOnSpace(h)| > 1
    ensures var pieces := SplitOnSpace(h);
      SecondPiece(h, pieces[0], pieces[1], if |pieces| == 2 then "" else " " + JoinWithSpace(pieces[2..]))
  {
    JoinSplit(h);
    JoinFirstTwo(SplitOnSpace(h));
  }

  lemma SecondPieceIsToken(h: string, first: string, t: string, rest: string)
    requires SecondPiece(h, first, t, rest)
    ensures |SplitOnSpace(h)| > 1 && SplitOnSpace(h)[1] == t
  {
    SplitAfterWord(first, t + rest);
    SplitWord(t, rest);
    assert first + " " + (t + rest) == h;
  }

  /** Header values the code meets, with a token. */
  lemma TokenAfterSpace()
    ensures TokenFromHeader("Bearer abc") == Some("abc")
  {
    assert SecondPiece("Bearer abc", "Bearer", "abc", "");
    TokenFromHeaderMeaning("Bearer abc", "abc");
  }

  lemma TokenAfterLongerPrefix()
    ensures TokenFromHeader("Bearerx y") == Some("y")
  {
    assert SecondPiece("Bearerx y", "Bearerx", "y", "");
    TokenFromHeaderMeaning("Bearerx y", "y");
  }

  lemma TokenBeforeThirdPiece()
    ensures TokenFromHeader("Bearer a b") == Some("a")
  {
    assert SecondPiece("Bearer a b", "Bearer", "a", " b");
    TokenFromHeaderMeaning("Bearer a b", "a");
  }

  lemma EmptyToken()
    ensures TokenFromHeader("Bearer ") == Some("")
  {
    assert SecondPiece("Bearer ", "Bearer", "", "");
    TokenFromHeaderMeaning("Bearer ", "");
  }

  /** No token: the bare prefix (the IndexError) and other schemes or spellings. */
  lemma NoTokenExamples()
    ensures TokenFromHeader("Bearer") == None
    ensures TokenFromHeader("bearer abc") == None
    ensures TokenFromHeader("Token abc") == None
  {
    SplitWord("Bearer", "");
    assert "Bearer" + "" == "Bearer";
    assert "bearer abc"[..6] != BearerPrefix;
    assert "Token abc"[..6] != BearerPrefix;
  }

  /** The value of `access_token` when `get_user` is called: None without an
      `authorization` header, for bytes that do not decode, for a value not
      starting with "Bearer", and for one with no space. */
  function ExtractToken(headers: seq<Header>, decode: seq<Byte> -> Option<string>): Option<string> {
    var d := HeaderMap(headers);
    if AuthorizationKey !in d then None
    else
      var decoded := decode(d[AuthorizationKey]);
      if decoded.None? then None else TokenFromHeader(decoded.value)
  }

  /** Without an `authorization` header there is no token. */
  lemma NoHeaderNoToken(headers: seq<Header>, decode: seq<Byte> -> Option<string>)
    requires forall i :: 0 <= i < |headers| ==> headers[i].0 != AuthorizationKey
    ensures ExtractToken(headers, decode) == None
  {
    HeaderMapLookup(headers, AuthorizationKey);
  }

  /** The token comes from the last `authorization` header, and only when
      its bytes decode. */
  lemma TokenFromLastHeader(headers: seq<Header>, decode: seq<Byte> -> Option<string>)
    ensures ExtractToken(headers, decode).Some? ==>
      exists i :: 0 <= i < |headers| && headers[i].0 == AuthorizationKey &&
        (forall j :: i < j < |headers| ==> headers[j].0 != AuthorizationKey) &&
        decode(headers[i].1).Some? && ExtractToken(headers, decode) == TokenFromHeader(decode(headers[i].1).value)
  {
    HeaderMapLookup(headers, AuthorizationKey);
  }

  // ---------------------------------------------------------------------
  // get_user

  /** `get_user(token)`. A None token builds a fresh token with no
      `user_id` claim, so it resolves to no user like a token that fails
      validation; a valid token whose id names no row gives DoesNotExist. */
  function GetUser(users: seq<User>, token: Option<string>, tokenUserId: string -> Option<Id>): (r: Option<User>)
    ensures r.Some? <==> token.Some? && tokenUserId(token.value).Some? && HasId(users, tokenUserId(token.value).value)
    ensures r.Some? ==> r.value in users && tokenUserId(token.value) == Some(r.value.id)
  {
    if token.None? then None
    else
      match tokenUserId(token.value)
      case None => None
      case Some(id) => FindById(users, id)
  }

  // ---------------------------------------------------------------------
  // __call__

  /** The ASGI connection scope the middleware receives and passes on. */
  class Scope {
    var headers: seq<Header>
    /** `scope["user"]`, once `userSet` says it was written. */
    var user: Option<User>
    var userSet: bool

    constructor (headers: seq<Header>)
      ensures this.headers == headers && !userSet && user == None
    {
      this.headers := headers;
      user := None;
      userSet := false;
    }
  }

  /** `JWTAuthMiddleware.__call__` up to the downstream call: the token is
      cut out of the header, and `scope["user"]` is always written before
      the consumer runs, with the user the token resolves to (or None). */
  method Authenticate(scope: Scope, users: seq<User>, decode: seq<Byte> -> Option<string>,
                      tokenUserId: string -> Option<Id>)
    modifies scope
    ensures scope.userSet
    ensures scope.user == GetUser(users, ExtractToken(old(scope.headers), decode), tokenUserId)
    ensures scope.headers == old(scope.headers)
  {
    var headers := HeaderMap(scope.headers);
    var accessToken: Option<string> := None;
    if AuthorizationKey in headers {
      var decoded := decode(headers[AuthorizationKey]);
      if decoded.Some? && StartsWith(decoded.value, BearerPrefix) {
        var pieces := SplitOnSpace(decoded.value);
        if |pieces| > 1 {
          accessToken := Some(pieces[1]);
        }
      }
    }
    scope.user := GetUser(users, accessToken, tokenUserId);
    scope.userSet := true;
  }

  /** A connection without an `authorization` header gets no user. */
  lemma NoHeaderNoUser(headers: seq<Header>, users: seq<User>, decode: seq<Byte> -> Option<string>,
                       tokenUserId: string -> Option<Id>)
    requires forall i :: 0 <= i < |headers| ==> headers[i].0 != AuthorizationKey
    ensures GetUser(users, ExtractToken(headers, decode), tokenUserId) == None
  {
    NoHeaderNoToken(headers, decode);
  }
}
