/** The `protect` gate in front of the chat routes. It reads the
    Authorization header, takes the second space-separated field as the bearer
    token, verifies it, and binds the token's subject as the caller. Token
    verification is cryptography outside the model: it arrives as `verify`,
    which yields the subject id of a valid token and None for every token it
    rejects (bad signature, expired, malformed). */
module AuthMiddleware {
  import opened Wrappers
  import opened Mongo
  import opened Http
  import opened UserModel

  const BearerPrefix := "Bearer"
  const NoToken := "Not authorized, no token"
  const TokenFailed := "Not authorized, token failed"

  /** The gate's verdict: pass on to the route with the bound user (None when
      the token's subject is not in the store), or 401 with a message. */
  datatype Gate = Next(user: Option<PublicUser>) | Unauthorized(message: string)

  /** `s.startsWith(prefix)`, case-sensitive. */
  predicate StartsWith(s: string, prefix: string) {
    |prefix| <= |s| && s[..|prefix|] == prefix
  }

  /** `s.split(sep)`: the maximal runs between separators, empty runs included. */
  function Split(s: string, sep: char): (parts: seq<string>)
    ensures |parts| >= 1
    ensures forall i :: 0 <= i < |parts| ==> sep !in parts[i]
    decreases |s|
  {
    if |s| == 0 then [""]
    else
      var rest := Split(s[1..], sep);
      if s[0] == sep then [""] + rest
      else [[s[0]] + rest[0]] + rest[1..]
  }

  /** `parts.join(sep)`. */
  function Join(parts: seq<string>, sep: char): string
    requires |parts| >= 1
  {
    if |parts| == 1 then parts[0] else parts[0] + [sep] + Join(parts[1..], sep)
  }

  /** Joining the fields of a split gives back the string. */
  lemma {:induction false} JoinSplit(s: string, sep: char)
    ensures Join(Split(s, sep), sep) == s
    decreases |s|
  {
    if |s| > 0 {
      var rest := Split(s[1..], sep);
      JoinSplit(s[1..], sep);
      if s[0] == sep {
        assert Split(s, sep) == [""] + rest;
        assert (([""] + rest)[1..]) == rest;
      } else {
        var parts := Split(s, sep);
        assert parts == [[s[0]] + rest[0]] + rest[1..];
        if |rest| == 1 {
          assert Join(parts, sep) == [s[0]] + rest[0];
        } else {
          assert parts[1..] == rest[1..];
          assert Join(rest, sep) == rest[0] + [sep] + Join(rest[1..], sep);
        }
        assert s == [s[0]] + s[1..];
      }
    }
  }

  /** A field free of separators, followed by the rest, splits into that field
      glued to the rest's first field. */
  lemma {:induction false} SplitFieldPrefix(a: string, r: string, sep: char)
    requires sep !in a
    ensures Split(a + r, sep) == [a + Split(r, sep)[0]] + Split(r, sep)[1..]
    decreases |a|
  {
    if |a| > 0 {
      SplitFieldPrefix(a[1..], r, sep);
      assert (a + r)[1..] == a[1..] + r;
      assert (a + r)[0] == a[0];
      assert [a[0]] + (a[1..] + Split(r, sep)[0]) == a + Split(r, sep)[0];
    } else {
      var p := Split(r, sep);
      assert a + r == r && a + p[0] == p[0];
      assert p == [p[0]] + p[1..];
    }
  }

  /** Splitting joined separator-free fields gives back the fields. */
  lemma {:induction false} SplitJoin(parts: seq<string>, sep: char)
    requires |parts| >= 1
    requires forall i :: 0 <= i < |parts| ==> sep !in parts[i]
    ensures Split(Join(parts, sep), sep) == parts
    decreases |parts|
  {
    if |parts| == 1 {
      SplitFieldPrefix(parts[0], "", sep);
      assert parts[0] + "" == parts[0];
    } else {
      var t := Join(parts[1..], sep);
      SplitJoin(parts[1..], sep);
      assert Split([sep] + t, sep) == [""] + Split(t, sep);
      assert parts[0] + [sep] + t == parts[0] + ([sep] + t);
      SplitFieldPrefix(parts[0], [sep] + t, sep);
      assert parts[0] + "" == parts[0];
    }
  }

  /** `authorization.split(' ')[1]`: None when there is no second field. */
  function TokenOf(header: string): Option<string> {
    var fields := Split(header, ' ');
    if |fields| >= 2 then Some(fields[1]) else None
  }

  /** The gate. An absent, empty or non-"Bearer" header gives "no token"; a
      missing or empty token, or one `verify` rejects, gives "token failed"
      (the token library refuses an empty token before any signature check);
      otherwise the
      request goes on with the token's subject looked up in the user store,
      even when the lookup finds nobody. */
  function Protect(authorization: Option<string>, verify: string -> Option<UserId>, users: UserStore): (g: Gate)
    ensures !Truthy(authorization) || !StartsWith(authorization.value, BearerPrefix) ==> g == Unauthorized(NoToken)
    ensures g.Next? <==>
      && Truthy(authorization) && StartsWith(authorization.value, BearerPrefix)
      && TokenOf(authorization.value).Some? && TokenOf(authorization.value).value != ""
      && verify(TokenOf(authorization.value).value).Some?
    ensures g.Next? ==>
      var subject := verify(TokenOf(authorization.value).value).value;
      && (g.user.Some? ==> g.user.value.id == subject && exists i :: 0 <= i < |users| && Public(users[i]) == g.user.value)
      && (g.user.None? <==> forall k :: 0 <= k < |users| ==> users[k].id != subject)
    ensures g.Unauthorized? && Truthy(authorization) && StartsWith(authorization.value, BearerPrefix) ==>
      g == Unauthorized(TokenFailed)
  {
    if Truthy(authorization) && StartsWith(authorization.value, BearerPrefix) then
      match TokenOf(authorization.value)
      case None => Unauthorized(TokenFailed)
      case Some(token) =>
        if token == "" then Unauthorized(TokenFailed)
        else match verify(token)
        case None => Unauthorized(TokenFailed)
        case Some(subject) => Next(FindPublicById(users, subject))
    else
      Unauthorized(NoToken)
  }

  /** The expected header "Bearer <token>" carries exactly the token. */
  lemma TokenOfBearer(token: string)
    requires ' ' !in token
    ensures TokenOf(BearerPrefix + " " + token) == Some(token)
  {
    var parts := [BearerPrefix, token];
    assert Join(parts[1..], ' ') == token;
    assert Join(parts, ' ') == BearerPrefix + " " + token;
    SplitJoin(parts, ' ');
  }

  /** A well-formed header passes exactly when `verify` accepts its token, and
      then binds the token's subject. */
  lemma ProtectWellFormed(token: string, verify: string -> Option<UserId>, users: UserStore)
    requires token != "" && ' ' !in token
    ensures
      var g := Protect(Some(BearerPrefix + " " + token), verify, users);
      && (verify(token).None? ==> g == Unauthorized(TokenFailed))
      && (verify(token).Some? ==> g == Next(FindPublicById(users, verify(token).value)))
  {
    TokenOfBearer(token);
    assert StartsWith(BearerPrefix + " " + token, BearerPrefix);
  }

  /** "Bearer" with nothing after it has no token, whatever `verify` accepts. */
  lemma ProtectBearerAlone(verify: string -> Option<UserId>, users: UserStore)
    ensures Protect(Some(BearerPrefix), verify, users) == Unauthorized(TokenFailed)
  {}

  /** "Bearer " and "Bearer  <token>" carry an empty second field, which is
      refused as "token failed" whatever `verify` accepts. */
  lemma ProtectEmptyToken(token: string, verify: string -> Option<UserId>, users: UserStore)
    ensures Protect(Some(BearerPrefix + " "), verify, users) == Unauthorized(TokenFailed)
    ensures ' ' !in token ==> Protect(Some(BearerPrefix + "  " + token), verify, users) == Unauthorized(TokenFailed)
  {
    SplitJoin([BearerPrefix, ""], ' ');
    assert Join([BearerPrefix, ""], ' ') == BearerPrefix + " ";
    assert StartsWith(BearerPrefix + " ", BearerPrefix);
    if ' ' !in token {
      var parts := [BearerPrefix, "", token];
      assert Join(parts[2..], ' ') == token;
      assert Join(parts[1..], ' ') == " " + token;
      assert Join(parts, ' ') == BearerPrefix + "  " + token;
      SplitJoin(parts, ' ');
      assert StartsWith(BearerPrefix + "  " + token, BearerPrefix);
    }
  }

  /** The prefix test has no trailing space: "BearerX <token>" gets through to
      verification of <token>. */
  lemma ProtectPrefixWithoutSpace(token: string, verify: string -> Option<UserId>, users: UserStore)
    requires token != "" && ' ' !in token
    ensures
      var g := Protect(Some("BearerX " + token), verify, users);
      && (verify(token).None? ==> g == Unauthorized(TokenFailed))
      && (verify(token).Some? ==> g == Next(FindPublicById(users, verify(token).value)))
  {
    var parts := ["BearerX", token];
    assert Join(parts[1..], ' ') == token;
    assert Join(parts, ' ') == "BearerX " + token;
    SplitJoin(parts, ' ');
    assert ("BearerX " + token)[..6] == BearerPrefix;
  }

  /** The prefix test is case-sensitive: "bearer <token>" is "no token". */
  lemma ProtectCaseSensitive(token: string, verify: string -> Option<UserId>, users: UserStore)
    ensures Protect(Some("bearer " + token), verify, users) == Unauthorized(NoToken)
  {}

  /** A valid token for an id with no user still passes, with no user bound. */
  lemma ProtectUnknownSubjectPasses(token: string, verify: string -> Option<UserId>, users: UserStore)
    requires token != "" && ' ' !in token
    requires verify(token).Some?
    requires forall k :: 0 <= k < |users| ==> users[k].id != verify(token).value
    ensures Protect(Some(BearerPrefix + " " + token), verify, users) == Next(None)
  {
    ProtectWellFormed(token, verify, users);
  }
}
