/** What a parsed request holds (src/include/http.h:18-85, include/kitserv.h:36-44). */
module Requests {
  import opened Bytes

  /** The bits of `enum kitserv_http_method`; HEAD contains the bit of GET. */
  datatype MethodBit = GetBit | PutBit | HeadBit | PostBit | DeleteBit
  type Method = set<MethodBit>

  const GET: Method := {GetBit}
  const PUT: Method := {PutBit}
  const HEAD: Method := {HeadBit, GetBit}
  const POST: Method := {PostBit}
  const DELETE: Method := {DeleteBit}

  datatype Version = Http11 | Http10

  datatype Phase = New | ReqMethod | ReqPath | ReqVersion | ReqVersionLf | ReqHead | ReqHeadLf

  /** A captured string: its offset in the buffer and what it reads, up to its NUL. */
  datatype Text = Absent | At(pos: nat, text: seq<byte>)

  datatype Request = Request(
    verb: Method, version: Version, path: Text, query: Text, contentLen: int,
    cookies: Text, range: Text, mimetype: Text, disposition: Text, modifiedSince: Text)

  /** `cleanup_client` zeroes the transaction (src/http.c:87-91). */
  const BLANK := Request({}, Http11, Absent, Absent, 0, Absent, Absent, Absent, Absent, Absent)

  const HTTP_BUFSZ: nat := 4096

  const HTTP_X_RESP_STATUS_UNSET: nat := 0
  const HTTP_X_HANGUP: nat := 1
  const HTTP_400_BAD_REQUEST: nat := 400
  const HTTP_404_NOT_FOUND: nat := 404
  const HTTP_405_METHOD_NOT_ALLOWED: nat := 405
  const HTTP_416_RANGE_NOT_SATISFIABLE: nat := 416
  const HTTP_431_REQUEST_HEADER_FIELDS_TOO_LARGE: nat := 431
  const HTTP_501_NOT_IMPLEMENTED: nat := 501
  const HTTP_505_VERSION_NOT_SUPPORTED: nat := 505
  const HTTP_507_INSUFFICIENT_STORAGE: nat := 507

  predicate StatusIsError(status: nat) { status >= 400 }

  /** The statuses by their numbers; errors are those from 400 on. */
  lemma StatusesByNumber(status: nat)
    ensures StatusIsError(status) <==> 400 <= status
    ensures HTTP_X_RESP_STATUS_UNSET == 0 && HTTP_X_HANGUP == 1 && HTTP_400_BAD_REQUEST == 400
    ensures HTTP_404_NOT_FOUND == 404 && HTTP_405_METHOD_NOT_ALLOWED == 405 && HTTP_416_RANGE_NOT_SATISFIABLE == 416
    ensures HTTP_431_REQUEST_HEADER_FIELDS_TOO_LARGE == 431 && HTTP_501_NOT_IMPLEMENTED == 501
    ensures HTTP_505_VERSION_NOT_SUPPORTED == 505 && HTTP_507_INSUFFICIENT_STORAGE == 507
  {
  }

  // Request tokens, in ASCII.
  const GET_TOKEN: seq<byte> := [71, 69, 84]                    // GET
  const PUT_TOKEN: seq<byte> := [80, 85, 84]                    // PUT
  const HEAD_TOKEN: seq<byte> := [72, 69, 65, 68]               // HEAD
  const POST_TOKEN: seq<byte> := [80, 79, 83, 84]               // POST
  const DELETE_TOKEN: seq<byte> := [68, 69, 76, 69, 84, 69]     // DELETE
  const HTTP_SLASH: seq<byte> := [72, 84, 84, 80, 47]           // HTTP/
  const ONE_ONE: seq<byte> := [49, 46, 49]                      // 1.1
  const ONE_ZERO: seq<byte> := [49, 46, 48]                     // 1.0

  function MethodOf(token: seq<byte>): Option<Method>
  {
    if token == GET_TOKEN then Some(GET)
    else if token == PUT_TOKEN then Some(PUT)
    else if token == HEAD_TOKEN then Some(HEAD)
    else if token == POST_TOKEN then Some(POST)
    else if token == DELETE_TOKEN then Some(DELETE)
    else None
  }

  function VersionOf(token: seq<byte>): Option<Version>
  {
    if token == ONE_ONE then Some(Http11) else if token == ONE_ZERO then Some(Http10) else None
  }

  /** The five methods by their names, which are upper case; HEAD is a GET as well. */
  lemma MethodsByName(token: seq<byte>)
    ensures MethodOf(token) ==
            if token == Ascii("GET") then Some({GetBit})
            else if token == Ascii("PUT") then Some({PutBit})
            else if token == Ascii("HEAD") then Some({HeadBit, GetBit})
            else if token == Ascii("POST") then Some({PostBit})
            else if token == Ascii("DELETE") then Some({DeleteBit})
            else None
  {
    AsciiIs("GET", GET_TOKEN);
    AsciiIs("PUT", PUT_TOKEN);
    AsciiIs("HEAD", HEAD_TOKEN);
    AsciiIs("POST", POST_TOKEN);
    AsciiIs("DELETE", DELETE_TOKEN);
  }

  /** The two versions by their numbers. */
  lemma VersionsByName(token: seq<byte>)
    ensures VersionOf(token) ==
            if token == Ascii("1.1") then Some(Http11) else if token == Ascii("1.0") then Some(Http10) else None
    ensures HTTP_SLASH == Ascii("HTTP/")
  {
    AsciiIs("1.1", ONE_ONE);
    AsciiIs("1.0", ONE_ZERO);
    AsciiIs("HTTP/", HTTP_SLASH);
  }

  /** `isprint` in the C locale. */
  predicate IsPrint(c: byte) { 32 <= c <= 126 }

  predicate AllPrint(s: seq<byte>) { forall i :: 0 <= i < |s| ==> IsPrint(s[i]) }

  /** Printable are the characters from the space to the tilde. */
  lemma PrintableCharacters(s: seq<byte>)
    ensures AllPrint(s) <==> forall c :: c in s ==> ' ' as int <= c <= '~' as int
  {
    assert forall i :: 0 <= i < |s| ==> s[i] in s;
  }

  /** The offset of the first ".." in `s`, or `|s|`. */
  function FindDots(s: seq<byte>, i: nat): (j: nat)
    requires i <= |s|
    ensures i <= j <= |s|
    ensures j < |s| ==> j + 1 < |s| && s[j] == DOT && s[j + 1] == DOT
    ensures forall k :: i <= k < j && k + 1 < |s| ==> !(s[k] == DOT && s[k + 1] == DOT)
    decreases |s| - i
  {
    if i + 1 >= |s| then |s| else if s[i] == DOT && s[i + 1] == DOT then i else FindDots(s, i + 1)
  }

  /** `attempted_path_traversal`: it looks at the first ".." only (src/http.c:171-186). */
  predicate AttemptedTraversal(path: seq<byte>)
  {
    var d := FindDots(path, 0);
    && d < |path|
    && (d + 2 == |path| || path[d + 2] == SLASH)
    && (d == 0 || path[d - 1] == SLASH)
  }

  predicate DotsAt(path: seq<byte>, d: int) { 0 <= d && d + 2 <= |path| && path[d..d + 2] == Ascii("..") }

  /**
   * A path is rejected exactly if its first two dots in a row are a whole segment. Dots behind others that are no
   * segment of their own are not looked at.
   */
  lemma TraversalByItsDots(path: seq<byte>)
    ensures AttemptedTraversal(path) <==>
            exists d ::
              && DotsAt(path, d) && (forall k :: DotsAt(path, k) ==> d <= k)
              && (d == 0 || path[d - 1] == '/' as int) && (d + 2 == |path| || path[d + 2] == '/' as int)
  {
    FirstDots(path);
    hide DotsAt, FindDots, Ascii;
    var first := FindDots(path, 0);
    if d :| DotsAt(path, d) && (forall k :: DotsAt(path, k) ==> d <= k)
            && (d == 0 || path[d - 1] == '/' as int) && (d + 2 == |path| || path[d + 2] == '/' as int) {
      assert first <= d && first < |path|;
      assert d == first;
    }
  }

  lemma FirstDots(path: seq<byte>)
    ensures var first := FindDots(path, 0);
            && (forall k :: DotsAt(path, k) ==> first <= k && k + 2 <= |path|) && (first < |path| ==> DotsAt(path, first))
  {
    hide DotsAt, Ascii;
    var first := FindDots(path, 0);
    forall k | DotsAt(path, k)
      ensures first <= k && k + 2 <= |path|
    {
      DotsByByte(path, k);
    }
    DotsByByte(path, first);
  }

  lemma DotsByByte(path: seq<byte>, k: int)
    ensures DotsAt(path, k) <==> 0 <= k && k + 2 <= |path| && path[k] == DOT && path[k + 1] == DOT
  {
    AsciiIs("..", [DOT, DOT]);
    if 0 <= k && k + 2 <= |path| {
      assert path[k..k + 2] == [path[k], path[k + 1]];
    }
  }

  /** The header fields the parser looks for, in table order (src/http.c:247-254). */
  datatype Field = Cookie | Range | IfModifiedSince | ContentLength | ContentType | ContentDisposition

  const HEADERS: seq<(seq<byte>, Field)> := [
    ([99, 111, 111, 107, 105, 101], Cookie),
    ([114, 97, 110, 103, 101], Range),
    ([105, 102, 45, 109, 111, 100, 105, 102, 105, 101, 100, 45, 115, 105, 110, 99, 101], IfModifiedSince),
    ([99, 111, 110, 116, 101, 110, 116, 45, 108, 101, 110, 103, 116, 104], ContentLength),
    ([99, 111, 110, 116, 101, 110, 116, 45, 116, 121, 112, 101], ContentType),
    ([99, 111, 110, 116, 101, 110, 116, 45, 100, 105, 115, 112, 111, 115, 105, 116, 105, 111, 110], ContentDisposition)
  ]

  lemma NamesOfThree()
    ensures HEADERS[0].0 == Ascii("cookie") && HEADERS[1].0 == Ascii("range")
    ensures HEADERS[2].0 == Ascii("if-modified-since")
  {
    hide Ascii;
    AsciiIs("cookie", HEADERS[0].0);
    AsciiIs("range", HEADERS[1].0);
    AsciiIs("if-modified-since", HEADERS[2].0);
  }

  lemma NamesOfContent()
    ensures HEADERS[3].0 == Ascii("content-length") && HEADERS[4].0 == Ascii("content-type")
    ensures HEADERS[5].0 == Ascii("content-disposition")
  {
    hide Ascii;
    AsciiIs("content-length", HEADERS[3].0);
    AsciiIs("content-type", HEADERS[4].0);
    AsciiIs("content-disposition", HEADERS[5].0);
  }

  /** The name of each field, and its place in the table. */
  lemma FieldsByName()
    ensures |HEADERS| == 6
    ensures HEADERS[0] == (Ascii("cookie"), Cookie) && HEADERS[1] == (Ascii("range"), Range)
    ensures HEADERS[2] == (Ascii("if-modified-since"), IfModifiedSince)
    ensures HEADERS[3] == (Ascii("content-length"), ContentLength)
    ensures HEADERS[4] == (Ascii("content-type"), ContentType)
    ensures HEADERS[5] == (Ascii("content-disposition"), ContentDisposition)
  {
    hide Ascii;
    NamesOfThree();
    NamesOfContent();
  }

  /** The table index at or after `i` whose name matches regardless of case, or `|HEADERS|`. */
  function MatchHeader(name: seq<byte>, i: nat): (j: nat)
    requires i <= |HEADERS|
    ensures i <= j <= |HEADERS|
    ensures j < |HEADERS| ==> HEADERS[j].0 == Lower(name)
    decreases |HEADERS| - i
  {
    if i == |HEADERS| || HEADERS[i].0 == Lower(name) then i else MatchHeader(name, i + 1)
  }
}
