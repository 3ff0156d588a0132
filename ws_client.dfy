/**
 * The client side of the file session, `tom wsc`: the decision whether to accept the server's
 * TLS certificate, the ping address derived from the endpoint, the console prompt, the reading
 * of a command line, and the message loop that sends cd, ls and motd requests and checks each
 * reply. The socket, the console and the JSON encoding are the environment: what the console
 * will return and what the server will answer are sequences the model consumes, and decoding
 * a reply's bytes is a parameter.
 */
module WebSocketClient {
  import opened Wrappers
  import opened Text
  import opened WebSocketMessages

  const NullReference := "NullReferenceException"
  const InvalidOperation := "InvalidOperationException"
  const NotImplemented := "NotImplementedException"
  const ArgumentNull := "ArgumentNullException"
  const WebSocketException := "WebSocketException"
  const JsonException := "JsonException"

  const TextNotInFull := "Text message not sent in full."

  /** The exceptions the message loop lets escape. */
  const LoopErrors := {NotImplemented, ArgumentNull, WebSocketException, JsonException}

  // ---------------------------------------------------------------------------------------
  // Certificate acceptance
  // ---------------------------------------------------------------------------------------

  /** SslPolicyErrors is a flag set. */
  type PolicyErrors = bv32

  const RemoteCertificateNotAvailable: PolicyErrors := 1
  const RemoteCertificateNameMismatch: PolicyErrors := 2
  const RemoteCertificateChainErrors: PolicyErrors := 4

  /** Enum.HasFlag. */
  predicate HasFlag(errors: PolicyErrors, flag: PolicyErrors)
  {
    errors & flag == flag
  }

  /** The two things the callback reads from the certificate. */
  datatype Certificate = Certificate(subject: string, hashString: string)

  /** string.IsNullOrWhiteSpace on an option value that may be absent. */
  predicate Blank(s: Option<string>)
  {
    s.None? || IsBlank(s.value)
  }

  /** string.Equals(a, b, OrdinalIgnoreCase), where two nulls are equal and one null is not. */
  predicate EqualsIgnoreCaseOrNull(a: Option<string>, b: Option<string>)
  {
    match (a, b)
    case (None, None) => true
    case (Some(x), Some(y)) => EqualsIgnoreCase(x, y)
    case _ => false
  }

  /** certificate?.GetCertHashString(). */
  function HashStringOf(certificate: Option<Certificate>): Option<string>
  {
    if certificate.None? then None else Some(certificate.value.hashString)
  }

  /** The pieces of a subject, split on ',', that start with "CN=" (the pieces are not trimmed). */
  function CommonNamePieces(pieces: seq<string>): (r: seq<string>)
    ensures forall c :: c in r <==> c in pieces && StartsWith(c, "CN=")
  {
    if pieces == [] then []
    else (if StartsWith(pieces[0], "CN=") then [pieces[0]] else []) + CommonNamePieces(pieces[1..])
  }

  /**
   * The subject's single CN component, its prefix removed and trimmed; Single throws
   * InvalidOperationException when there is none or more than one.
   */
  function CommonName(subject: string): (r: Result<string, string>)
    ensures r.Failure? ==> r.error == InvalidOperation
  {
    var pieces := CommonNamePieces(Split(subject, ','));
    if |pieces| == 1 then
      assert pieces[0] in pieces;
      Success(Trim(pieces[0][3..]))
    else Failure(InvalidOperation)
  }

  /**
   * serverCertificateValidationCallback: whether the handshake may go on. A failure is an
   * exception the callback throws.
   */
  function CertificateCallback(subjectName: Option<string>, thumbprint: Option<string>,
                               certificate: Option<Certificate>, errors: PolicyErrors): (r: Result<bool, string>)
    ensures errors == 0 ==> r == Success(true)
    ensures r.Failure? ==> !Blank(subjectName) && errors == RemoteCertificateNameMismatch
                           && r.error in {NullReference, InvalidOperation}
  {
    if errors == 0 then Success(true)
    else if !Blank(subjectName) then
      if HasFlag(errors, RemoteCertificateChainErrors) then Success(false)
      else if errors & !RemoteCertificateNameMismatch != 0 then Success(false)
      else if HasFlag(errors, RemoteCertificateNameMismatch) then
        if certificate.None? then Failure(NullReference)
        else
          match CommonName(certificate.value.subject)
          case Failure(e) => Failure(e)
          case Success(cn) => Success(EqualsIgnoreCase(subjectName.value, cn))
      else Success(EqualsIgnoreCaseOrNull(thumbprint, HashStringOf(certificate)))
    else Success(EqualsIgnoreCaseOrNull(thumbprint, HashStringOf(certificate)))
  }

  /**
   * The callback is installed only when a subject name or a thumbprint is given; otherwise the
   * platform accepts exactly the certificates without policy errors.
   */
  function CertificateAccepted(subjectName: Option<string>, thumbprint: Option<string>,
                               certificate: Option<Certificate>, errors: PolicyErrors): (r: Result<bool, string>)
    ensures Blank(subjectName) && Blank(thumbprint) ==> r == Success(errors == 0)
    ensures !Blank(subjectName) || !Blank(thumbprint) ==> r == CertificateCallback(subjectName, thumbprint, certificate, errors)
  {
    if !Blank(subjectName) || !Blank(thumbprint) then CertificateCallback(subjectName, thumbprint, certificate, errors)
    else Success(errors == 0)
  }

  /** With a subject name set, chain errors and error bits other than a name mismatch reject. */
  lemma {:induction false} SubjectNameRejectsOtherErrors(subjectName: Option<string>, thumbprint: Option<string>,
                                      certificate: Option<Certificate>, errors: PolicyErrors)
    requires !Blank(subjectName)
    requires HasFlag(errors, RemoteCertificateChainErrors) || errors & !RemoteCertificateNameMismatch != 0
    ensures CertificateAccepted(subjectName, thumbprint, certificate, errors) == Success(false)
  {
  }

  /**
   * With a subject name set and only a name mismatch, the certificate is accepted exactly when
   * its single CN component equals the subject name ignoring case.
   */
  lemma {:induction false} SubjectNameDecidesMismatch(subjectName: Option<string>, thumbprint: Option<string>,
                                   certificate: Certificate)
    requires !Blank(subjectName)
    ensures var r := CertificateAccepted(subjectName, thumbprint, Some(certificate), RemoteCertificateNameMismatch);
      && (r.Failure? <==> CommonName(certificate.subject).Failure?)
      && (r.Success? ==> (r.value <==> EqualsIgnoreCase(subjectName.value, CommonName(certificate.subject).value)))
  {
  }

  /** With a subject name set, the thumbprint is never consulted. */
  lemma {:induction false} SubjectNameIgnoresThumbprint(subjectName: Option<string>, thumbprint1: Option<string>,
                                     thumbprint2: Option<string>, certificate: Option<Certificate>,
                                     errors: PolicyErrors)
    requires !Blank(subjectName)
    ensures CertificateAccepted(subjectName, thumbprint1, certificate, errors)
         == CertificateAccepted(subjectName, thumbprint2, certificate, errors)
  {
    if errors != 0 && errors & !RemoteCertificateNameMismatch == 0 {
      assert errors == RemoteCertificateNameMismatch;
    }
  }

  /** With a blank subject name and some error, the thumbprint alone decides. */
  lemma {:induction false} ThumbprintDecides(subjectName: Option<string>, thumbprint: Option<string>,
                          certificate: Option<Certificate>, errors: PolicyErrors)
    requires Blank(subjectName) && !Blank(thumbprint) && errors != 0
    ensures CertificateAccepted(subjectName, thumbprint, certificate, errors)
         == Success(certificate.Some? && EqualsIgnoreCase(thumbprint.value, certificate.value.hashString))
  {
  }

  /** Two pieces around one separator split back into those pieces. */
  lemma {:induction false} SplitTwo(a: string, b: string, sep: char)
    requires sep !in a && sep !in b
    ensures Split(a + [sep] + b, sep) == [a, b]
  {
    var s := a + [sep] + b;
    assert s[..|a|] == a && s[|a| + 1..] == b;
    IndexOfAt(s, sep, |a|);
  }

  /** A CN that does not lead the subject follows ", " and so is not found. */
  lemma {:induction false} CommonNameMustLead(first: string, cn: string)
    requires ',' !in first && ',' !in cn && !StartsWith(first, "CN=")
    ensures CommonName(first + ", CN=" + cn) == Failure(InvalidOperation)
  {
    var rest := " CN=" + cn;
    assert first + ", CN=" + cn == first + [','] + rest;
    SplitTwo(first, rest, ',');
    assert rest[0] == ' ';
    assert CommonNamePieces([rest]) == [];
    assert CommonNamePieces([first, rest]) == [];
  }

  /** A leading CN is found, its prefix removed and the rest trimmed. */
  lemma {:induction false} LeadingCommonName(cn: string, rest: string)
    requires ',' !in cn && ',' !in rest
    ensures CommonName("CN=" + cn + ", " + rest) == Success(Trim(cn))
  {
    var lead, tail := "CN=" + cn, " " + rest;
    assert "CN=" + cn + ", " + rest == lead + [','] + tail;
    SplitTwo(lead, tail, ',');
    assert tail[0] == ' ';
    assert CommonNamePieces([tail]) == [];
    assert CommonNamePieces([lead, tail]) == [lead];
    assert lead[3..] == cn;
  }

  // ---------------------------------------------------------------------------------------
  // The ping address
  // ---------------------------------------------------------------------------------------

  /** An absolute URI as the parts that matter here (no user info, no fragment). */
  datatype Uri = Uri(scheme: string, authority: string, path: string, query: string)

  /** Uri.AbsoluteUri. */
  function AbsoluteUri(u: Uri): string
  {
    u.scheme + "://" + u.authority + u.path + u.query
  }

  /** The ping endpoint's base: a scheme beginning with "ws" has those two letters replaced by "http". */
  function PingBase(endpoint: Uri): (r: Uri)
    ensures r.authority == endpoint.authority && r.path == endpoint.path && r.query == endpoint.query
  {
    if StartsWith(endpoint.scheme, "ws") then endpoint.(scheme := "http" + endpoint.scheme[2..]) else endpoint
  }

  /** The rewrite on the parts is the source's rewrite on the text: "http" then AbsoluteUri[2..]. */
  lemma {:induction false} PingBaseIsTextRewrite(endpoint: Uri)
    requires StartsWith(endpoint.scheme, "ws")
    ensures AbsoluteUri(PingBase(endpoint)) == "http" + AbsoluteUri(endpoint)[2..]
  {
    var e := endpoint;
    assert AbsoluteUri(e)[2..] == e.scheme[2..] + "://" + e.authority + e.path + e.query;
  }

  /** ws becomes http, wss becomes https, and an http or https endpoint is used as it is. */
  lemma {:induction false} PingSchemes(endpoint: Uri)
    ensures endpoint.scheme == "ws" ==> PingBase(endpoint).scheme == "http"
    ensures endpoint.scheme == "wss" ==> PingBase(endpoint).scheme == "https"
    ensures endpoint.scheme in {"http", "https"} ==> PingBase(endpoint) == endpoint
  {
    if endpoint.scheme == "wss" {
      assert endpoint.scheme[2..] == "s";
    } else if endpoint.scheme in {"http", "https"} {
      assert endpoint.scheme[0] == 'h';
    }
  }

  /** The merge of section 5.2.3 of RFC 3986: the base path up to its last '/', then the reference. */
  function MergePaths(base: Uri, reference: string): (r: string)
  {
    if base.authority != "" && base.path == "" then "/" + reference
    else base.path[..LastIndexOf(base.path, '/') + 1] + reference
  }

  /**
   * new Uri(base, reference) for a relative-path reference without dot segments, query or
   * fragment (section 5.2.2 of RFC 3986): the scheme and authority are the base's, the path is
   * merged and the query is the reference's (none).
   */
  function Resolve(base: Uri, reference: string): (r: Uri)
  {
    base.(path := MergePaths(base, reference), query := "")
  }

  /** The ping address: http(s), the endpoint's authority, and "ws/ping" after the endpoint's last '/'. */
  function PingAddress(endpoint: Uri): (r: Uri)
  {
    Resolve(PingBase(endpoint), "ws/ping")
  }

  /** What the ping address keeps of the endpoint and what it replaces. */
  lemma {:induction false} PingAddressParts(endpoint: Uri)
    ensures var r := PingAddress(endpoint);
      && r.authority == endpoint.authority
      && r.query == ""
      && (StartsWith(endpoint.scheme, "ws") ==> r.scheme == "http" + endpoint.scheme[2..])
      && (!StartsWith(endpoint.scheme, "ws") ==> r.scheme == endpoint.scheme)
      && r.path == Directory(endpoint) + "ws/ping"
  {
  }

  /** The part of the endpoint's path the merge keeps. */
  function Directory(endpoint: Uri): (r: string)
    ensures r == [] || r[|r| - 1] == '/'
  {
    if endpoint.authority != "" && endpoint.path == "" then "/"
    else endpoint.path[..LastIndexOf(endpoint.path, '/') + 1]
  }


  /** The endpoint's last path segment is replaced, not extended. */
  lemma {:induction false} PingReplacesLastSegment(endpoint: Uri, directory: string, last: string)
    requires endpoint.path == directory + last
    requires directory != [] && directory[|directory| - 1] == '/' && '/' !in last
    ensures PingAddress(endpoint).path == directory + "ws/ping"
  {
    var k := |directory| - 1;
    assert endpoint.path[k + 1..] == last;
    LastIndexOfAt(endpoint.path, '/', k);
    assert endpoint.path[..k + 1] == directory;
  }

  /** Only 204 No Content lets the client go on to connect. */
  function PingChecked(status: int): (r: Result<(), string>)
    ensures r.Success? <==> status == 204
    ensures r.Failure? ==> r.error == InvalidOperation
  {
    if status == 204 then Success(()) else Failure(InvalidOperation)
  }

  // ---------------------------------------------------------------------------------------
  // Reading a command line
  // ---------------------------------------------------------------------------------------

  /** Each piece trimmed; the pieces that are then empty removed. */
  function NonEmptyTrimmed(pieces: seq<string>): (r: seq<string>)
    ensures |r| <= |pieces|
  {
    if pieces == [] then []
    else
      var t := Trim(pieces[0]);
      (if t == [] then [] else [t]) + NonEmptyTrimmed(pieces[1..])
  }

  /** input.Split(' ', RemoveEmptyEntries | TrimEntries). */
  function Tokens(input: string): seq<string>
  {
    NonEmptyTrimmed(Split(input, ' '))
  }

  /** Trim removes white space at both ends, so it keeps a piece of its input. */
  lemma {:induction false} TrimInside(s: string)
    ensures exists i, j :: 0 <= i <= j <= |s| && Trim(s) == s[i..j]
  {
    var t := TrimStart(s);
    TrimStartSuffix(s);
    TrimEndPrefix(t);
    var i := |s| - |t|;
    assert Trim(s) == s[i..][..|TrimEnd(t)|] == s[i..i + |TrimEnd(t)|];
  }

  /** Every token is non-empty and holds no blank. */
  lemma {:induction false} TokensAreWords(pieces: seq<string>)
    requires forall i :: 0 <= i < |pieces| ==> ' ' !in pieces[i]
    ensures forall i :: 0 <= i < |NonEmptyTrimmed(pieces)| ==>
              NonEmptyTrimmed(pieces)[i] != [] && ' ' !in NonEmptyTrimmed(pieces)[i]
  {
    if pieces != [] {
      TokensAreWords(pieces[1..]);
      TrimInside(pieces[0]);
      var i, j :| 0 <= i <= j <= |pieces[0]| && Trim(pieces[0]) == pieces[0][i..j];
      assert ' ' !in pieces[0][i..j];
    }
  }

  /** A word as a token: non-empty and without white space. */
  predicate IsWord(w: string)
  {
    w != [] && forall i :: 0 <= i < |w| ==> !IsWhiteSpace(w[i])
  }

  /** Words typed with one blank between them. */
  function JoinWords(ws: seq<string>): (r: string)
  {
    if |ws| == 0 then ""
    else if |ws| == 1 then ws[0]
    else ws[0] + " " + JoinWords(ws[1..])
  }


  lemma {:induction false} SplitJoin(ws: seq<string>)
    requires |ws| >= 1
    requires forall i :: 0 <= i < |ws| ==> ' ' !in ws[i]
    ensures Split(JoinWords(ws), ' ') == ws
    decreases |ws|
  {
    if |ws| > 1 {
      var w := ws[0];
      var rest := JoinWords(ws[1..]);
      var s := w + " " + rest;
      assert JoinWords(ws) == s;
      assert s[..|w|] == w && s[|w| + 1..] == rest;
      IndexOfAt(s, ' ', |w|);
      SplitJoin(ws[1..]);
    }
  }

  lemma {:induction false} TrimWord(w: string)
    requires IsWord(w)
    ensures Trim(w) == w
  {
    assert TrimStart(w) == w;
    assert !IsWhiteSpace(w[|w| - 1]);
  }

  lemma {:induction false} NonEmptyTrimmedWords(ws: seq<string>)
    requires forall i :: 0 <= i < |ws| ==> IsWord(ws[i])
    ensures NonEmptyTrimmed(ws) == ws
  {
    if ws != [] {
      TrimWord(ws[0]);
      NonEmptyTrimmedWords(ws[1..]);
    }
  }

  /** Reading a line typed as words gives back exactly those words. */
  lemma {:induction false} TokensOfWords(ws: seq<string>)
    requires forall i :: 0 <= i < |ws| ==> IsWord(ws[i])
    ensures Tokens(JoinWords(ws)) == ws
  {
    if ws == [] {
      assert Split("", ' ') == [""];
      assert Trim("") == "";
    } else {
      forall i | 0 <= i < |ws|
        ensures ' ' !in ws[i]
      {
        assert IsWord(ws[i]);
      }
      SplitJoin(ws);
      NonEmptyTrimmedWords(ws);
    }
  }

  /** What a command line asks for. */
  datatype Action =
    | ChangeDirectory(target: string)
    | ListDirectory
    | ShowStatus
    | ShowHelp
    | Quit
    | NotInterpreted

  /** The action a lower-cased first token names; cd takes the last token as its target. */
  function ActionOf(first: string, last: string): Action
  {
    if first == "cd" then ChangeDirectory(last)
    else if first == "ls" then ListDirectory
    else if first == "motd" then ShowStatus
    else if first == "h" || first == "help" then ShowHelp
    else if first == "q" || first == "quit" then Quit
    else NotInterpreted
  }

  /** The switch on tokens.FirstOrDefault()?.ToLower(); no token at all matches no case. */
  function Interpret(input: string): Action
  {
    var ts := Tokens(input);
    if ts == [] then NotInterpreted else ActionOf(ToLower(ts[0]), ts[|ts| - 1])
  }

  /** A line typed as words is read by its lower-cased first word and, for cd, its last. */
  lemma {:induction false} InterpretWords(ws: seq<string>)
    requires ws != [] && forall i :: 0 <= i < |ws| ==> IsWord(ws[i])
    ensures Interpret(JoinWords(ws)) == ActionOf(ToLower(ws[0]), ws[|ws| - 1])
  {
    TokensOfWords(ws);
  }

  /** The command word is read without regard to case. */
  lemma {:induction false} InterpretIgnoresCase(ws1: seq<string>, ws2: seq<string>)
    requires |ws1| >= 2 && |ws1| == |ws2| && ws1[1..] == ws2[1..] && ToLower(ws1[0]) == ToLower(ws2[0])
    requires forall i :: 0 <= i < |ws1| ==> IsWord(ws1[i]) && IsWord(ws2[i])
    ensures Interpret(JoinWords(ws1)) == Interpret(JoinWords(ws2))
  {
    InterpretWords(ws1);
    InterpretWords(ws2);
    assert ws1[|ws1| - 1] == ws1[1..][|ws1| - 2] == ws2[|ws2| - 1];
  }

  /** A lone "cd" asks to change into a directory named "cd". */
  lemma {:induction false} LoneCdTargetsItself()
    ensures Interpret("cd") == ChangeDirectory("cd")
  {
    InterpretWords(["cd"]);
    assert JoinWords(["cd"]) == "cd";
  }

  // ---------------------------------------------------------------------------------------
  // Replies
  // ---------------------------------------------------------------------------------------

  /**
   * The text the next ReceiveAsync yields: none left (the socket is gone) throws, a result not
   * at the end of its message makes the client close and throw, and the server's close arrives
   * as an empty text.
   */
  function ReplyText(rs: seq<Received>): (r: Result<seq<bv8>, string>)
    ensures r.Failure? ==> r.error in {WebSocketException, NotImplemented}
  {
    if rs == [] then Failure(WebSocketException)
    else match rs[0]
      case Data(_, payload, endOfMessage) => if endOfMessage then Success(payload) else Failure(NotImplemented)
      case CloseReceived(_, _) => Success([])
  }

  /** What remains to be received: nothing once the server has closed. */
  function Rest(rs: seq<Received>): (r: seq<Received>)
    ensures |r| < |rs| || rs == []
  {
    if rs == [] || rs[0].CloseReceived? then [] else rs[1..]
  }

  /** The close the client sends before throwing, when the reply is not at its end. */
  function Closing(rs: seq<Received>): seq<Sent<Command>>
  {
    if ReplyText(rs) == Failure(NotImplemented) then [SentClose(PolicyViolation, TextNotInFull)] else []
  }

  /** The reply decoded, or the exception on the way. */
  function Decoded(decode: seq<bv8> -> Option<Reply>, rs: seq<Received>): (r: Result<Reply, string>)
    ensures r.Failure? ==> r.error in {WebSocketException, NotImplemented, JsonException}
  {
    match ReplyText(rs)
    case Failure(e) => Failure(e)
    case Success(p) => if decode(p).Some? then Success(decode(p).value) else Failure(JsonException)
  }

  /**
   * CurrentDirectory read from a reply by name: motd and ls replies carry one; the others
   * leave it null and new DirectoryInfo(null) throws.
   */
  function CurrentDirectoryOf(m: Reply): (r: Result<string, string>)
    ensures r.Success? <==> m.MotdReply? || m.LsReply?
    ensures r.Failure? ==> r.error == ArgumentNull
  {
    match m
    case MotdReply(dir, _, _) => Success(dir)
    case LsReply(dir, _, _) => Success(dir)
    case _ => Failure(ArgumentNull)
  }

  /** What the console shows, as far as the model tracks it. */
  datatype Shown =
    | HelpText
    | Location(remotePath: string)
    | Listing(listing: Reply)
    | Status(status: Reply)
    | ErrorText(payload: string)
    | UnexpectedType
    | NotInterpretedText(input: string)

  /** The remote directory after a cd reply: an ls reply's directory, otherwise unchanged. */
  function AfterCd(remotePath: string, m: Reply): (r: string)
    ensures r != remotePath ==> m.LsReply? && r == m.currentDirectory
  {
    if m.LsReply? then m.currentDirectory else remotePath
  }

  /** What a cd reply shows: the listing, the server's error, or that the type was unexpected. */
  function CdShown(m: Reply): Shown
  {
    match m
    case LsReply(_, _, _) => Listing(m)
    case ErrorReply(payload) => ErrorText(payload)
    case _ => UnexpectedType
  }

  /** The remote directory an ls reply names; a reply without Dirs makes Union throw. */
  function AfterLs(m: Reply): (r: Result<string, string>)
    ensures r.Success? <==> m.LsReply?
    ensures r.Failure? ==> r.error == ArgumentNull
  {
    if m.LsReply? then Success(m.currentDirectory) else Failure(ArgumentNull)
  }

  /** The actions that send a request and wait for the reply. */
  predicate AsksServer(a: Action)
  {
    a.ChangeDirectory? || a == ListDirectory || a == ShowStatus
  }

  /** The request an action sends. */
  function RequestFor(a: Action): (c: Command)
    requires AsksServer(a)
    ensures c.CdCommand? || c == LsCommand || c == MotdCommand
  {
    if a.ChangeDirectory? then CdCommand(a.target) else if a == ListDirectory then LsCommand else MotdCommand
  }

  /**
   * The remote path once an action's reply is decoded: cd keeps it unless the reply lists a
   * directory, ls needs a listing, motd reads CurrentDirectory from whatever came back.
   */
  function AfterReply(a: Action, remotePath: string, m: Reply): (r: Result<string, string>)
    requires AsksServer(a)
  {
    if a.ChangeDirectory? then Success(AfterCd(remotePath, m))
    else if a == ListDirectory then AfterLs(m)
    else CurrentDirectoryOf(m)
  }

  /** A frame the client sends while its loop runs: one of its three requests. */
  predicate Request(f: Sent<Command>)
  {
    f.SentText? && (f.message.CdCommand? || f.message == LsCommand || f.message == MotdCommand)
  }

  /** The frames sent since `before` are requests, but for a last close when `failed`. */
  ghost predicate Requests(sent: seq<Sent<Command>>, before: nat, failed: bool)
  {
    before <= |sent|
    && forall i :: before <= i < |sent| ==>
         Request(sent[i]) || (failed && i == |sent| - 1 && sent[i] == SentClose(PolicyViolation, TextNotInFull))
  }

  /** One request and, when its reply is cut short, the close after it. */
  lemma {:induction false} RequestSent(before: seq<Sent<Command>>, c: Command, rs: seq<Received>, failed: bool)
    requires Request(SentText(c)) && (ReplyText(rs) == Failure(NotImplemented) ==> failed)
    ensures var sent := before + [SentText(c)] + Closing(rs);
      && Requests(sent, |before|, failed)
      && (ReplyText(rs) == Failure(NotImplemented) ==> sent[|sent| - 1] == SentClose(PolicyViolation, TextNotInFull))
  {
  }

  /** How the message loop ended without an exception. */
  datatype Ending = Quitted | InputExhausted

  class Client {
    const decode: seq<bv8> -> Option<Reply>
    /** The lines Console.ReadLine will return before the end of input. */
    var lines: seq<string>
    /** The results ReceiveAsync will return. */
    var replies: seq<Received>
    var sent: seq<Sent<Command>>
    var shown: seq<Shown>

    constructor (decode: seq<bv8> -> Option<Reply>, lines: seq<string>, replies: seq<Received>)
      ensures this.decode == decode && this.lines == lines && this.replies == replies
      ensures sent == [] && shown == []
    {
      this.decode := decode;
      this.lines := lines;
      this.replies := replies;
      sent := [];
      shown := [];
    }

    /**
     * Prompt: shows where the session stands, then reads until a line is not empty once
     * trimmed. At the end of input ReadLine keeps returning null and the source loops for
     * ever; here the prompt reports None.
     */
    method Prompt(remotePath: string) returns (input: Option<string>)
      modifies this`lines, this`shown
      ensures shown == old(shown) + [Location(remotePath)]
      ensures input.None? ==> lines == [] && forall j :: 0 <= j < |old(lines)| ==> Trim(old(lines)[j]) == []
      ensures input.Some? ==> |lines| < |old(lines)| && lines == old(lines)[|old(lines)| - |lines|..]
      ensures input.Some? ==>
        var k := |old(lines)| - |lines| - 1;
        input.value == Trim(old(lines)[k]) && input.value != []
        && forall j :: 0 <= j < k ==> Trim(old(lines)[j]) == []
    {
      shown := shown + [Location(remotePath)];
      var n := 0;
      while true
        invariant 0 <= n <= |old(lines)| && lines == old(lines)[n..]
        invariant forall j :: 0 <= j < n ==> Trim(old(lines)[j]) == []
        invariant shown == old(shown) + [Location(remotePath)]
        decreases |lines|
      {
        if lines == [] {
          return None;
        }
        var line := Trim(lines[0]);
        lines := lines[1..];
        n := n + 1;
        if line != [] {
          return Some(line);
        }
      }
    }

    /** SendAsync of one request, then one ReceiveAsync and its end-of-message check. */
    method Exchange(c: Command) returns (r: Result<seq<bv8>, string>)
      modifies this`sent, this`replies
      ensures r == ReplyText(old(replies))
      ensures replies == Rest(old(replies))
      ensures sent == old(sent) + [SentText(c)] + Closing(old(replies))
    {
      sent := sent + [SentText(c)];
      if replies == [] {
        return Failure(WebSocketException);
      }
      var received := replies[0];
      replies := Rest(replies);
      match received
      case Data(_, payload, endOfMessage) =>
        if !endOfMessage {
          sent := sent + [SentClose(PolicyViolation, TextNotInFull)];
          return Failure(NotImplemented);
        }
        r := Success(payload);
      case CloseReceived(_, _) =>
        r := Success([]);
    }

    /** Exchange followed by decoding the reply. */
    method Ask(c: Command) returns (r: Result<Reply, string>)
      modifies this`sent, this`replies
      ensures r == Decoded(decode, old(replies))
      ensures replies == Rest(old(replies))
      ensures sent == old(sent) + [SentText(c)] + Closing(old(replies))
    {
      var text := Exchange(c);
      if text.Failure? {
        return Failure(text.error);
      }
      var m := decode(text.value);
      if m.None? {
        return Failure(JsonException);
      }
      r := Success(m.value);
    }

    /** SendAndReceiveCdAsync and the update of the remote path. */
    method SendCd(remotePath: string, target: string) returns (r: Result<string, string>)
      modifies this`sent, this`replies, this`shown
      ensures replies == Rest(old(replies))
      ensures sent == old(sent) + [SentText(CdCommand(target))] + Closing(old(replies))
      ensures var d := Decoded(decode, old(replies));
        && (d.Failure? ==> r == Failure(d.error) && shown == old(shown))
        && (d.Success? ==> r == Success(AfterCd(remotePath, d.value)) && shown == old(shown) + [CdShown(d.value)])
    {
      var m := Ask(CdCommand(target));
      if m.Failure? {
        return Failure(m.error);
      }
      shown := shown + [CdShown(m.value)];
      r := Success(AfterCd(remotePath, m.value));
    }

    /** SendAndReceiveLsAsync and the new remote path. */
    method SendLs() returns (r: Result<string, string>)
      modifies this`sent, this`replies, this`shown
      ensures replies == Rest(old(replies))
      ensures sent == old(sent) + [SentText(LsCommand)] + Closing(old(replies))
      ensures var d := Decoded(decode, old(replies));
        && (d.Failure? ==> r == Failure(d.error) && shown == old(shown))
        && (d.Success? ==> r == AfterLs(d.value)
                           && shown == old(shown) + (if d.value.LsReply? then [Listing(d.value)] else []))
    {
      var m := Ask(LsCommand);
      if m.Failure? {
        return Failure(m.error);
      }
      if m.value.LsReply? {
        shown := shown + [Listing(m.value)];
      }
      r := AfterLs(m.value);
    }

    /** SendAndReceiveMotdAsync: the status is shown whatever the reply was. */
    method SendMotd() returns (r: Result<Reply, string>)
      modifies this`sent, this`replies, this`shown
      ensures replies == Rest(old(replies))
      ensures sent == old(sent) + [SentText(MotdCommand)] + Closing(old(replies))
      ensures r == Decoded(decode, old(replies))
      ensures shown == old(shown) + (if r.Success? then [Status(r.value)] else [])
    {
      r := Ask(MotdCommand);
      if r.Success? {
        shown := shown + [Status(r.value)];
      }
    }

    /** The three actions that go to the server, each as its SendAndReceive call. */
    method AskServer(a: Action, remotePath: string) returns (r: Result<string, string>)
      requires AsksServer(a)
      modifies this`sent, this`replies, this`shown
      ensures sent == old(sent) + [SentText(RequestFor(a))] + Closing(old(replies))
      ensures Decoded(decode, old(replies)).Failure? ==> r == Failure(Decoded(decode, old(replies)).error)
      ensures Decoded(decode, old(replies)).Success? ==>
                r == AfterReply(a, remotePath, Decoded(decode, old(replies)).value)
      ensures r.Failure? ==> r.error in LoopErrors
      ensures Requests(sent, |old(sent)|, r.Failure?)
      ensures r.Failure? && r.error == NotImplemented ==> sent[|sent| - 1] == SentClose(PolicyViolation, TextNotInFull)
      ensures old(shown) <= shown
    {
      ghost var rs := replies;
      if a.ChangeDirectory? {
        r := SendCd(remotePath, a.target);
      } else if a == ListDirectory {
        r := SendLs();
      } else {
        var m := SendMotd();
        r := if m.Failure? then Failure(m.error) else CurrentDirectoryOf(m.value);
      }
      RequestSent(old(sent), RequestFor(a), rs, r.Failure?);
    }

    /**
     * One pass of the message loop after the prompt: what the line asks for, and the remote
     * path afterwards. `stop` is set by quit and by an exception.
     */
    method Step(input: string, remotePath: string) returns (stop: bool, r: Result<string, string>)
      modifies this`sent, this`replies, this`shown
      ensures stop <==> Interpret(input) == Quit || r.Failure?
      ensures r.Failure? ==> r.error in LoopErrors
      ensures AsksServer(Interpret(input)) ==>
                sent == old(sent) + [SentText(RequestFor(Interpret(input)))] + Closing(old(replies))
      ensures AsksServer(Interpret(input)) && Decoded(decode, old(replies)).Success? ==>
                r == AfterReply(Interpret(input), remotePath, Decoded(decode, old(replies)).value)
      ensures !AsksServer(Interpret(input)) ==>
                sent == old(sent) && replies == old(replies) && r == Success(remotePath)
      ensures Interpret(input) == ShowHelp ==> shown == old(shown) + [HelpText]
      ensures Interpret(input) == NotInterpreted ==> shown == old(shown) + [NotInterpretedText(input)]
      ensures Interpret(input) == Quit ==> shown == old(shown)
      ensures old(sent) <= sent && Requests(sent, |old(sent)|, r.Failure?)
      ensures r.Failure? && r.error == NotImplemented ==>
                |sent| > |old(sent)| && sent[|sent| - 1] == SentClose(PolicyViolation, TextNotInFull)
      ensures old(shown) <= shown
    {
      var a := Interpret(input);
      r := Success(remotePath);
      if AsksServer(a) {
        r := AskServer(a, remotePath);
      } else if a == ShowHelp {
        shown := shown + [HelpText];
      } else if a == NotInterpreted {
        shown := shown + [NotInterpretedText(input)];
      }
      stop := a == Quit || r.Failure?;
    }

    /**
     * StartMessageLoopAsync: the help text, then prompt and step until quit, an exception, or
     * the end of input.
     */
    method MessageLoop(remotePath: string) returns (r: Result<Ending, string>)
      modifies this`lines, this`sent, this`replies, this`shown
      ensures old(shown) + [HelpText] <= shown
      ensures r.Failure? ==> r.error in LoopErrors
      ensures old(sent) <= sent && Requests(sent, |old(sent)|, r.Failure?)
      ensures r.Failure? && r.error == NotImplemented ==>
                |sent| > |old(sent)| && sent[|sent| - 1] == SentClose(PolicyViolation, TextNotInFull)
      ensures r == Success(InputExhausted) ==> lines == []
    {
      shown := shown + [HelpText];
      var remote := remotePath;
      while true
        invariant old(shown) + [HelpText] <= shown
        invariant old(sent) <= sent && Requests(sent, |old(sent)|, false)
        decreases |lines|
      {
        var input := Prompt(remote);
        if input.None? {
          return Success(InputExhausted);
        }
        ghost var sent0 := sent;
        var stop, next := Step(input.value, remote);
        RequestsJoin(sent0, sent, |old(sent)|, next.Failure?);
        if stop {
          if next.Failure? {
            return Failure(next.error);
          }
          return Success(Quitted);
        }
        remote := next.value;
      }
    }

    /**
     * HandleAsync once the certificate question is settled: ping, connect, motd, ls, the
     * message loop, and a normal close after quit.
     */
    method Run(pingStatus: int) returns (r: Result<Ending, string>)
      modifies this`lines, this`sent, this`replies, this`shown
      ensures pingStatus != 204 ==> r == Failure(InvalidOperation) && sent == old(sent) && replies == old(replies)
      ensures r.Failure? ==> r.error == InvalidOperation || r.error in LoopErrors
      ensures pingStatus == 204 ==> |sent| > |old(sent)| && sent[|old(sent)|] == SentText(MotdCommand)
      ensures r.Success? ==> |sent| > |old(sent)| + 1 && sent[|old(sent)| + 1] == SentText(LsCommand)
      ensures r == Success(Quitted) ==> sent[|sent| - 1] == SentClose(NormalClosure, "")
    {
      var ping := PingChecked(pingStatus);
      if ping.Failure? {
        return Failure(ping.error);
      }
      var motd := SendMotd();
      if motd.Failure? {
        return Failure(motd.error);
      }
      var ls := SendLs();
      if ls.Failure? {
        return Failure(ls.error);
      }
      r := MessageLoop(ls.value);
      if r == Success(Quitted) {
        sent := sent + [SentClose(NormalClosure, "")];
      }
    }
  }

  /** The request frames of consecutive passes make one run of request frames. */
  lemma {:induction false} RequestsJoin(sent0: seq<Sent<Command>>, sent: seq<Sent<Command>>, before: nat, failed: bool)
    requires Requests(sent0, before, false) && sent0 <= sent && Requests(sent, |sent0|, failed)
    ensures Requests(sent, before, failed)
  {
    forall i | before <= i < |sent|
      ensures Request(sent[i]) || (failed && i == |sent| - 1 && sent[i] == SentClose(PolicyViolation, TextNotInFull))
    {
      if i < |sent0| {
        assert sent[i] == sent0[i];
      }
    }
  }
}
