/**
 * The authorization filter in front of the web socket controller: a token from the
 * `token` query parameter, or else from an `Authorization: Token ...` header, must equal
 * the configured one.
 */
module RequiresTokenFilter {

  import opened Wrappers
  import Text

  /**
   * What the filter reads from a request: the first value of the `token` query parameter
   * when it is present, and the values of the Authorization header when it is present.
   */
  datatype Request = Request(tokenQuery: Option<string>, authorization: Option<seq<string>>)

  /** The UnauthorizedObjectResult the filter sets. */
  datatype Rejection = Unauthorized(message: string)

  const NoTokenFound := "No token found."
  const InvalidTokenFound := "Invalid token found."
  const TokenPrefix := "Token "

  /** string.IsNullOrWhiteSpace, with None for null. */
  predicate IsNullOrWhiteSpace(s: Option<string>)
  {
    s.None? || Text.IsBlank(s.value)
  }

  /** FirstOrDefault(ah => ah.StartsWith(prefix)). */
  function FirstWithPrefix(values: seq<string>, prefix: string): (r: Option<string>)
  {
    if values == [] then None
    else if Text.StartsWith(values[0], prefix) then Some(values[0])
    else FirstWithPrefix(values[1..], prefix)
  }

  /** It finds the first value with the prefix, and none exactly when no value has it. */
  lemma {:induction false} FirstWithPrefixIsFirst(values: seq<string>, prefix: string)
    ensures FirstWithPrefix(values, prefix).None? <==> forall i :: 0 <= i < |values| ==> !Text.StartsWith(values[i], prefix)
    ensures FirstWithPrefix(values, prefix).Some? ==>
      exists i :: 0 <= i < |values| && values[i] == FirstWithPrefix(values, prefix).value
        && Text.StartsWith(values[i], prefix)
        && forall j :: 0 <= j < i ==> !Text.StartsWith(values[j], prefix)
  {
    if values != [] && !Text.StartsWith(values[0], prefix) {
      FirstWithPrefixIsFirst(values[1..], prefix);
      if FirstWithPrefix(values, prefix).Some? {
        var i :| 0 <= i < |values[1..]| && values[1..][i] == FirstWithPrefix(values, prefix).value
          && Text.StartsWith(values[1..][i], prefix)
          && forall j :: 0 <= j < i ==> !Text.StartsWith(values[1..][j], prefix);
        assert values[i + 1] == values[1..][i];
        forall j | 0 <= j < i + 1
          ensures !Text.StartsWith(values[j], prefix)
        {
          if j > 0 {
            assert values[j] == values[1..][j - 1];
          }
        }
      }
    }
  }

  /** Split(' ').Last(): the text after the last blank. */
  function LastPiece(s: string): (r: string)
    ensures ' ' !in r
  {
    var pieces := Text.Split(s, ' ');
    pieces[|pieces| - 1]
  }

  /** The last piece is what follows the last blank, or the whole string when there is none. */
  lemma {:induction false} LastPieceIsSuffix(s: string)
    ensures |LastPiece(s)| <= |s| && s[|s| - |LastPiece(s)|..] == LastPiece(s)
    ensures |LastPiece(s)| < |s| ==> s[|s| - |LastPiece(s)| - 1] == ' '
    decreases |s|
  {
    if ' ' in s {
      var k := Text.IndexOf(s, ' ');
      var rest := s[k + 1..];
      LastPieceAfterBlank(s, k);
      LastPieceIsSuffix(rest);
      var n := |LastPiece(rest)|;
      SliceOfSuffix(s, k + 1, n);
    }
  }

  /** Splitting at the first blank leaves the last piece to the rest. */
  lemma LastPieceAfterBlank(s: string, k: nat)
    requires ' ' in s && k == Text.IndexOf(s, ' ')
    ensures LastPiece(s) == LastPiece(s[k + 1..])
  {
    assert Text.Split(s, ' ') == [s[..k]] + Text.Split(s[k + 1..], ' ');
  }

  /** Positions near the end of a suffix are the same positions of the whole. */
  lemma SliceOfSuffix(s: string, j: nat, n: nat)
    requires 0 < j <= |s| && n <= |s| - j
    ensures s[j..][|s| - j - n..] == s[|s| - n..]
    ensures n < |s| - j ==> s[j..][|s| - j - n - 1] == s[|s| - n - 1]
    ensures n == |s| - j ==> s[|s| - n - 1] == s[j - 1]
  {
  }

  /** The token the filter settles on: the query value, or, when that is null or blank, the header's. */
  function Token(request: Request): (token: Option<string>)
  {
    var fromQuery := request.tokenQuery;
    if IsNullOrWhiteSpace(fromQuery) && request.authorization.Some? then
      match FirstWithPrefix(request.authorization.value, TokenPrefix)
      case None => None
      case Some(header) => Some(LastPiece(header))
    else fromQuery
  }

  /** OnAuthorization: None lets the request through; otherwise the result it sets. */
  function OnAuthorization(request: Request, configured: Option<string>): (r: Option<Rejection>)
    ensures r == None <==> Token(request).Some? && !Text.IsBlank(Token(request).value) && Token(request) == configured
    ensures r == Some(Unauthorized(NoTokenFound)) <==> IsNullOrWhiteSpace(Token(request))
    ensures r == Some(Unauthorized(InvalidTokenFound)) <==> !IsNullOrWhiteSpace(Token(request)) && Token(request) != configured
  {
    var token := Token(request);
    if IsNullOrWhiteSpace(token) then Some(Unauthorized(NoTokenFound))
    else if token != configured then Some(Unauthorized(InvalidTokenFound))
    else None
  }

  /** A non-blank query token is the token, whatever the Authorization header holds. */
  lemma QueryTokenSupersedesHeader(request: Request, t: string, headers: Option<seq<string>>, configured: Option<string>)
    requires request.tokenQuery == Some(t) && !Text.IsBlank(t)
    ensures Token(request) == Some(t)
    ensures OnAuthorization(request, configured) == OnAuthorization(request.(authorization := headers), configured)
  {
  }

  /** Without a usable query token, the token is the last blank-separated piece of the first "Token " header value. */
  lemma HeaderTokenIsLastPiece(request: Request)
    requires IsNullOrWhiteSpace(request.tokenQuery) && request.authorization.Some?
    ensures var first := FirstWithPrefix(request.authorization.value, TokenPrefix);
      (first.None? ==> Token(request).None?)
      && (first.Some? ==> Token(request) == Some(LastPiece(first.value)))
  {
  }

  /** A request whose token equals the configured one passes; with the header form, this one does. */
  lemma HeaderTokenAccepted(secret: string)
    requires !Text.IsBlank(secret) && ' ' !in secret
    ensures OnAuthorization(Request(None, Some(["Basic x", TokenPrefix + secret])), Some(secret)) == None
  {
    var s := "Basic x";
    var h := TokenPrefix + secret;
    assert !Text.StartsWith(s, TokenPrefix) by {
      assert s[0] != TokenPrefix[0];
    }
    assert Text.StartsWith(h, TokenPrefix);
    assert FirstWithPrefix([s, h], TokenPrefix) == Some(h) by {
      assert [s, h][1..] == [h];
    }
    LastPieceIsSuffix(h);
    var last := LastPiece(h);
    assert last == secret by {
      assert h[|h| - |secret|..] == secret;
    }
  }
}
