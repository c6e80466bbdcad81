/**
 * The response side of a client: the header block, the body or file to send, and what is written to the socket
 * (src/http.c:1162-1313, 1392-1419, src/api.c:162-184).
 */
module Responses {
  import opened Bytes
  import opened Numbers
  import opened Requests
  import opened Headers
  import opened Sending

  // Header texts, in ASCII.
  const CONTENT_LENGTH: seq<byte> := [99, 111, 110, 116, 101, 110, 116, 45, 108, 101, 110, 103, 116, 104]
  const CONTENT_TYPE: seq<byte> := [99, 111, 110, 116, 101, 110, 116, 45, 116, 121, 112, 101]
  const TEXT_PLAIN: seq<byte> := [116, 101, 120, 116, 47, 112, 108, 97, 105, 110]
  const SERVER: seq<byte> := [115, 101, 114, 118, 101, 114]
  const KITSERV: seq<byte> := [107, 105, 116, 115, 101, 114, 118]
  const ALLOW: seq<byte> := [97, 108, 108, 111, 119]

  const FD_DISABLE: int := 0

  /** The library's texts: start lines, error bodies, which may quote the path, and the value of the allow header. */
  datatype Texts = Texts(
    startLine: (Version, nat) -> seq<byte>, errorBody: (Text, nat) -> seq<byte>, allow: Method -> seq<byte>)

  function LengthField(n: int): HeaderField { HeaderField(CONTENT_LENGTH, PrintLong(n)) }

  const SERVER_FIELD := HeaderField(SERVER, KITSERV)
  const TYPE_FIELD := HeaderField(CONTENT_TYPE, TEXT_PLAIN)

  // ----- The fields of a response -----

  /**
   * What became of the fields a handler added: they are sent; an error adds the type of its text to them, because they
   * are to be preserved; or an error replaces them.
   */
  datatype How = AsAdded | WithType | Replaced(allow: Option<HeaderField>)

  /** The only field that can come with an error is the allow header. */
  predicate OwnAllow(how: How) { how.Replaced? && how.allow.Some? ==> how.allow.value.key == ALLOW }

  function Composed(added: seq<HeaderField>, how: How): seq<HeaderField>
  {
    match how
    case AsAdded => added
    case WithType => added + [TYPE_FIELD]
    case Replaced(None) => [TYPE_FIELD]
    case Replaced(Some(allow)) => [allow, TYPE_FIELD]
  }

  function HowOf(substituted: bool, keepHeaders: bool, keepBody: bool, status: nat, allow: HeaderField): How
  {
    if !substituted || keepBody then AsAdded
    else if keepHeaders then WithType
    else Replaced(if status == HTTP_405_METHOD_NOT_ALLOWED then Some(allow) else None)
  }

  lemma SentAsAdded(added: seq<HeaderField>, n: int)
    ensures AllFields(added, AsAdded, n) == added + [LengthField(n), SERVER_FIELD]
  {
  }

  lemma ReplacedForgets(a: seq<HeaderField>, b: seq<HeaderField>, keepHeaders: bool, keepBody: bool, status: nat,
                        allow: HeaderField)
    requires a == b || (!keepHeaders && !keepBody)
    ensures Composed(a, HowOf(true, keepHeaders, keepBody, status, allow)) ==
            Composed(b, HowOf(true, keepHeaders, keepBody, status, allow))
  {
  }

  /** The fields of a response that announces `n`. */
  function AllFields(added: seq<HeaderField>, how: How, n: int): seq<HeaderField>
  {
    Composed(added, how) + [LengthField(n), SERVER_FIELD]
  }

  /** How many fields have this name, which is in lower case; case does not matter to the peer. */
  function Count(fs: seq<HeaderField>, name: seq<byte>): nat
  {
    if fs == [] then 0 else (if Lower(fs[0].key) == name then 1 else 0) + Count(fs[1..], name)
  }

  lemma {:induction false} CountAppend(a: seq<HeaderField>, b: seq<HeaderField>, name: seq<byte>)
    ensures Count(a + b, name) == Count(a, name) + Count(b, name)
  {
    if a == [] {
      assert a + b == b;
    } else {
      assert (a + b)[0] == a[0] && (a + b)[1..] == a[1..] + b;
      CountAppend(a[1..], b, name);
    }
  }

  lemma {:induction false} CountZero(fs: seq<HeaderField>, name: seq<byte>)
    ensures Count(fs, name) == 0 <==> forall f :: f in fs ==> Lower(f.key) != name
  {
    if fs != [] {
      assert fs == [fs[0]] + fs[1..];
      CountZero(fs[1..], name);
    }
  }

  lemma CountOne(f: HeaderField, name: seq<byte>)
    ensures Count([f], name) == if Lower(f.key) == name then 1 else 0
  {
    assert [f][1..] == [];
  }

  lemma FixedNames()
    ensures Lower(CONTENT_LENGTH) == CONTENT_LENGTH && Lower(CONTENT_TYPE) == CONTENT_TYPE && Lower(SERVER) == SERVER
    ensures |CONTENT_LENGTH| == 14 && |CONTENT_TYPE| == 12 && |SERVER| == 6 && |ALLOW| == 5
    ensures Lower(ALLOW) == ALLOW
  {
    assert |CONTENT_LENGTH| == 14 && |CONTENT_TYPE| == 12 && |SERVER| == 6 && |ALLOW| == 5;
    LowerIs(CONTENT_LENGTH);
    LowerIs(CONTENT_TYPE);
    LowerIs(SERVER);
    LowerIs(ALLOW);
  }

  lemma LowerIs(s: seq<byte>)
    requires forall i :: 0 <= i < |s| ==> !(65 <= s[i] <= 90)
    ensures Lower(s) == s
  {
    assert forall i :: 0 <= i < |s| ==> LowerByte(s[i]) == s[i];
  }

  /** The field that counts, and the fields beside it. */
  lemma {:induction false} CountOfAll(added: seq<HeaderField>, how: How, n: int)
    requires OwnAllow(how)
    ensures Count(AllFields(added, how, n), CONTENT_LENGTH) ==
            1 + if how.Replaced? then 0 else Count(added, CONTENT_LENGTH)
    ensures how.WithType? ==> Count(AllFields(added, how, n), CONTENT_TYPE) == 1 + Count(added, CONTENT_TYPE)
  {
    hide Count, Lower;
    FixedNames();
    var tail := [LengthField(n), SERVER_FIELD];
    assert tail == [LengthField(n)] + [SERVER_FIELD];
    CountAppend([LengthField(n)], [SERVER_FIELD], CONTENT_LENGTH);
    CountAppend([LengthField(n)], [SERVER_FIELD], CONTENT_TYPE);
    CountOne(LengthField(n), CONTENT_LENGTH);
    CountOne(LengthField(n), CONTENT_TYPE);
    CountOne(SERVER_FIELD, CONTENT_LENGTH);
    CountOne(SERVER_FIELD, CONTENT_TYPE);
    CountAppend(Composed(added, how), tail, CONTENT_LENGTH);
    CountAppend(Composed(added, how), tail, CONTENT_TYPE);
    CountOne(TYPE_FIELD, CONTENT_LENGTH);
    CountOne(TYPE_FIELD, CONTENT_TYPE);
    match how
    case AsAdded =>
    case WithType =>
      CountAppend(added, [TYPE_FIELD], CONTENT_LENGTH);
      CountAppend(added, [TYPE_FIELD], CONTENT_TYPE);
    case Replaced(None) =>
    case Replaced(Some(allow)) =>
      assert [allow, TYPE_FIELD] == [allow] + [TYPE_FIELD];
      CountAppend([allow], [TYPE_FIELD], CONTENT_LENGTH);
      CountOne(allow, CONTENT_LENGTH);
  }

  /** A response has exactly one content-length exactly if an error replaced the handler's fields or they hold none. */
  lemma OneLengthExactly(added: seq<HeaderField>, how: How, n: int)
    requires OwnAllow(how)
    ensures Count(AllFields(added, how, n), CONTENT_LENGTH) == 1 <==>
            how.Replaced? || forall f :: f in added ==> Lower(f.key) != CONTENT_LENGTH
  {
    hide Lower, Count, AllFields;
    CountOfAll(added, how, n);
    CountZero(added, CONTENT_LENGTH);
  }

  /** An error that preserves the handler's fields has exactly one content-type exactly if they hold none. */
  lemma OneTypeExactly(added: seq<HeaderField>, n: int)
    ensures Count(AllFields(added, WithType, n), CONTENT_TYPE) == 1 <==>
            forall f :: f in added ==> Lower(f.key) != CONTENT_TYPE
  {
    hide Lower, Count, AllFields;
    CountOfAll(added, WithType, n);
    CountZero(added, CONTENT_TYPE);
  }

  /** A handler that adds a content-length of its own makes the response announce two. */
  lemma TwoLengths()
    ensures var own := HeaderField(CONTENT_LENGTH, [53]);
            && AllFields([own], AsAdded, 3) == [own, HeaderField(CONTENT_LENGTH, [51]), SERVER_FIELD]
            && Count(AllFields([own], AsAdded, 3), CONTENT_LENGTH) == 2
  {
    hide Lower, Count;
    var own := HeaderField(CONTENT_LENGTH, [53]);
    CountOfAll([own], AsAdded, 3);
    CountOne(own, CONTENT_LENGTH);
    FixedNames();
  }

  // ----- Lengths -----

  /** The content-length a response announces (src/include/http.h:80-83). */
  function Promised(fd: int, pos: int, end: int, bodyLen: nat): int
  {
    if fd != FD_DISABLE then end - pos + 1 else bodyLen - pos
  }

  /** A negative length becomes a huge one when it is passed as a `size_t`. */
  function AsSize(n: int): nat { if n >= 0 then n else (n % 0x1_0000_0000_0000_0000) }

  /** What `sendfile` can take from a file of this content at `pos`, asked for `count` bytes. */
  function Available(file: seq<byte>, pos: nat, count: nat): seq<byte>
  {
    if pos >= |file| then [] else file[pos..Min(|file|, pos + count)]
  }

  // ----- Framing -----

  /** What a completed transfer of the window [pos, end] of a file can have sent. */
  ghost predicate Delivers(file: seq<byte>, pos: nat, end: int, sent: seq<byte>)
  {
    if pos <= end + 1 then sent == Available(file, pos, end - pos + 1)
    else sent <= Available(file, pos, AsSize(end - pos + 1))
  }

  /** The window lies within the file, or is empty. */
  predicate GoodWindow(fileSize: nat, pos: nat, end: int)
  {
    pos <= end + 1 && (end < fileSize || pos == end + 1)
  }

  /** A transfer that is not broken reaches the end of the window: it is not cut short by the end of the file. */
  predicate ReachesTheEnd(fileSize: nat, pos: nat, end: int)
  {
    GoodWindow(fileSize, pos, end) || pos > end + 1
  }

  /** The bytes of a file transfer are as many as were announced exactly when the window is good, and then they are it. */
  lemma FileFraming(file: seq<byte>, pos: nat, end: int, sent: seq<byte>)
    requires Delivers(file, pos, end, sent)
    ensures |sent| == Promised(1, pos, end, 0) <==> GoodWindow(|file|, pos, end)
    ensures GoodWindow(|file|, pos, end) ==> sent == if pos == end + 1 then [] else file[pos..end + 1]
  {
    if pos <= end + 1 {
      if pos < |file| {
        assert |sent| == Min(|file|, end + 1) - pos;
      } else {
        assert sent == [];
      }
    }
  }

  /**
   * A transfer that is cut short, because the file ends before its window does, has sent the file from the start of the
   * window on. A window that ends before it starts has a size of almost 2^64: anything up to the whole rest can be sent.
   */
  lemma CutShort(file: seq<byte>, pos: nat, end: int, sent: seq<byte>)
    requires Delivers(file, pos, end, sent) && |file| <= INT64_MAX && INT64_MIN <= end - pos + 1
    ensures pos <= end && end >= |file| ==> sent == if pos < |file| then file[pos..] else []
    ensures pos > end + 1 ==> sent <= if pos < |file| then file[pos..] else []
  {
  }

  lemma InvertedWindowCanSendTheRest(file: seq<byte>, pos: nat, end: int)
    requires |file| <= INT64_MAX && INT64_MIN <= end - pos + 1 && pos > end + 1
    ensures Delivers(file, pos, end, if pos < |file| then file[pos..] else [])
  {
  }

  /** The window that an empty file and a suffix range produce announces a negative length. */
  lemma NegativeLength()
    ensures Promised(1, 1, -1, 0) == -1 && !GoodWindow(0, 1, -1)
  {
  }

  // ----- What becomes of a response -----

  /** What a handler shapes of a response, its status, and the descriptors closed so far. */
  datatype Draft = Draft(
    status: nat, fields: seq<HeaderField>, body: seq<byte>, fd: int, file: seq<byte>, pos: nat, end: int,
    keepHeaders: bool, keepBody: bool, allow: Method, closed: seq<int>)

  /** What a response is once it was prepared. */
  datatype Outcome = Outcome(
    status: nat, how: How, body: seq<byte>, fd: int, file: seq<byte>, pos: nat, end: int, closed: seq<int>)

  function AllowField(texts: Texts, allow: Method): HeaderField { HeaderField(ALLOW, texts.allow(allow)) }

  /** How far the handler's fields, content-length and server fill the block. */
  function NeededRoom(d: Draft): nat
  {
    |PrintFields(d.fields)| + |PrintField(LengthField(Promised(d.fd, d.pos, d.end, |d.body|)))| + |PrintField(SERVER_FIELD)|
  }

  /** The first pass fails, or is skipped for an error. */
  predicate Substituted(d: Draft) { StatusIsError(d.status) || NeededRoom(d) + 2 >= HTTP_BUFSZ }

  /** A full block makes the status 507, unless just the empty line does not fit. */
  function StatusThen(d: Draft): nat
  {
    if StatusIsError(d.status) || NeededRoom(d) < HTTP_BUFSZ then d.status else HTTP_507_INSUFFICIENT_STORAGE
  }

  /** Where just the empty line does not fit, 507 becomes the descriptor (src/http.c:1279). */
  function FdThen(d: Draft): int
  {
    if !StatusIsError(d.status) && NeededRoom(d) < HTTP_BUFSZ <= NeededRoom(d) + 2 then HTTP_507_INSUFFICIENT_STORAGE else d.fd
  }

  /**
   * What `kitserv_http_prepare_response` makes of a draft when it succeeds. As it stands, if all of it fits; otherwise an
   * error, whose text replaces body and file unless they are to be preserved. The method plays no part in it.
   */
  function OutcomeOf(d: Draft, texts: Texts, path: Text): Outcome
  {
    if !Substituted(d) then Outcome(d.status, AsAdded, d.body, d.fd, d.file, d.pos, d.end, d.closed)
    else
      var status, fd := StatusThen(d), FdThen(d);
      if d.keepBody then Outcome(status, AsAdded, d.body, fd, d.file, d.pos, d.end, d.closed)
      else
        var how := HowOf(true, d.keepHeaders, false, status, AllowField(texts, d.allow));
        Outcome(status, how, texts.errorBody(path, status), if fd > 0 then 0 else fd, d.file, 0, 0,
                d.closed + if fd > 0 then [fd] else [])
  }

  /** The descriptors closed once a response was prepared, or its preparation has gone as far as it could. */
  function ClosedThen(d: Draft): seq<int>
  {
    d.closed + if Substituted(d) && !d.keepBody && FdThen(d) > 0 then [FdThen(d)] else []
  }

  lemma OutcomeCloses(d: Draft, texts: Texts, path: Text)
    ensures OutcomeOf(d, texts, path).closed == ClosedThen(d)
  {
    hide NeededRoom;
  }

  /** The fields the block holds when a response was prepared. */
  function FieldsOf(d: Draft, o: Outcome): seq<HeaderField>
  {
    AllFields(d.fields, o.how, Promised(o.fd, o.pos, o.end, |o.body|))
  }

  /**
   * When the preparation succeeds: there is a peer left, the fields fit with the empty line, a second pass has nothing
   * to keep in a full block, and there is memory for an error's text.
   */
  predicate CanPrepare(d: Draft, texts: Texts, path: Text, memory: bool)
  {
    && d.status != HTTP_X_HANGUP
    && |PrintFields(FieldsOf(d, OutcomeOf(d, texts, path)))| + 2 < HTTP_BUFSZ
    && (Substituted(d) && !StatusIsError(d.status) ==> !d.keepHeaders && !d.keepBody)
    && (Substituted(d) && !d.keepBody ==> memory)
  }

  /** The outcome of a second pass. */
  lemma SecondOutcome(d: Draft, texts: Texts, path: Text)
    requires Substituted(d)
    ensures var o := OutcomeOf(d, texts, path);
            && o.status == StatusThen(d) && o.file == d.file
            && o.how == HowOf(true, d.keepHeaders, d.keepBody, o.status, AllowField(texts, d.allow))
            && (if d.keepBody
                then o.body == d.body && o.fd == FdThen(d) && o.pos == d.pos && o.end == d.end && o.closed == d.closed
                else o.body == texts.errorBody(path, o.status) && o.fd == (if FdThen(d) > 0 then 0 else FdThen(d))
                     && o.pos == 0 && o.end == 0 && o.closed == d.closed + if FdThen(d) > 0 then [FdThen(d)] else [])
  {
  }

  /** An error keeps its status; so does every response whose fields leave room for what is added. */
  lemma StatusKept(d: Draft, texts: Texts, path: Text)
    ensures OutcomeOf(d, texts, path).status == d.status <==>
            StatusIsError(d.status) || NeededRoom(d) < HTTP_BUFSZ
    ensures StatusIsError(d.status) ==> OutcomeOf(d, texts, path).status == d.status
  {
  }

  /**
   * An error announces the length of its text, unless the descriptor was negative and stays so (src/http.c:1194): then
   * it announces 1, and nothing follows.
   */
  lemma ErrorLength(d: Draft, texts: Texts, path: Text)
    requires Substituted(d) && !d.keepBody
    ensures var o := OutcomeOf(d, texts, path);
            Promised(o.fd, o.pos, o.end, |o.body|) == if FdThen(d) >= 0 then |texts.errorBody(path, o.status)| else 1
  {
  }

  lemma NamesSpell()
    ensures CONTENT_LENGTH == Ascii("content-length") && CONTENT_TYPE == Ascii("content-type") && ALLOW == Ascii("allow")
    ensures SERVER_FIELD == HeaderField(Ascii("server"), Ascii("kitserv"))
    ensures TYPE_FIELD == HeaderField(Ascii("content-type"), Ascii("text/plain"))
  {
    hide Ascii;
    AsciiIs("content-length", CONTENT_LENGTH);
    AsciiIs("content-type", CONTENT_TYPE);
    AsciiIs("text/plain", TEXT_PLAIN);
    AsciiIs("server", SERVER);
    AsciiIs("kitserv", KITSERV);
    AsciiIs("allow", ALLOW);
  }

  /** The last two fields of every response. */
  function Closing(fd: int, pos: int, end: int, bodyLen: nat): seq<HeaderField>
  {
    [HeaderField(Ascii("content-length"), PrintLong(if fd != 0 then end - pos + 1 else bodyLen - pos)),
     HeaderField(Ascii("server"), Ascii("kitserv"))]
  }

  /**
   * The fields of a response that was prepared: the handler's, and the two that every response has. An error comes with
   * the type of its text, unless the body is preserved; unless the headers are preserved as well, it replaces the
   * handler's fields. A 405 that replaces them begins with the allow field (section 15.5.6 of RFC 9110).
   */
  lemma FieldsAre(d: Draft, texts: Texts, path: Text)
    ensures var o := OutcomeOf(d, texts, path);
            var tail := Closing(o.fd, o.pos, o.end, |o.body|);
            var text := HeaderField(Ascii("content-type"), Ascii("text/plain"));
            FieldsOf(d, o) ==
            if !Substituted(d) || d.keepBody then d.fields + tail
            else if d.keepHeaders then d.fields + [text] + tail
            else if o.status == 405 then [HeaderField(Ascii("allow"), texts.allow(d.allow)), text] + tail
            else [text] + tail
  {
    hide Ascii, PrintLong, NeededRoom;
    NamesSpell();
  }

  /** How many allow fields it has: one for a 405 that replaces the handler's, and otherwise those that are kept. */
  lemma AllowCount(d: Draft, texts: Texts, path: Text)
    ensures var o := OutcomeOf(d, texts, path);
            Count(FieldsOf(d, o), Ascii("allow")) ==
            if !Substituted(d) || d.keepBody || d.keepHeaders then Count(d.fields, Ascii("allow"))
            else if o.status == 405 then 1 else 0
  {
    hide Ascii, PrintLong, Substituted, Count, Lower, OutcomeOf, FieldsOf, Closing;
    var o := OutcomeOf(d, texts, path);
    var tail := Closing(o.fd, o.pos, o.end, |o.body|);
    var text := HeaderField(Ascii("content-type"), Ascii("text/plain"));
    var allow := HeaderField(Ascii("allow"), texts.allow(d.allow));
    FieldsAre(d, texts, path);
    NamesSpell();
    FixedNames();
    ClosingHasNone(o.fd, o.pos, o.end, |o.body|);
    CountOne(text, Ascii("allow"));
    CountOne(allow, Ascii("allow"));
    CountAppend(d.fields, tail, Ascii("allow"));
    CountAppend(d.fields, [text], Ascii("allow"));
    CountAppend(d.fields + [text], tail, Ascii("allow"));
    CountAppend([text], tail, Ascii("allow"));
    CountAppend([allow], [text], Ascii("allow"));
    assert [allow] + [text] == [allow, text];
    CountAppend([allow, text], tail, Ascii("allow"));
  }

  lemma ClosingHasNone(fd: int, pos: int, end: int, bodyLen: nat)
    ensures Count(Closing(fd, pos, end, bodyLen), Ascii("allow")) == 0
  {
    hide Ascii, PrintLong, Lower;
    NamesSpell();
    FixedNames();
    var n := LengthField(if fd != 0 then end - pos + 1 else bodyLen - pos);
    assert Closing(fd, pos, end, bodyLen) == [n] + [SERVER_FIELD];
    CountAppend([n], [SERVER_FIELD], Ascii("allow"));
    CountOne(n, Ascii("allow"));
    CountOne(SERVER_FIELD, Ascii("allow"));
  }

  /**
   * What becomes of a response, by its numbers. It stays as it is if it has no error status and its fields leave room
   * for the empty line and a NUL in 4096 bytes. Otherwise an error takes its place, with its own status or 507, whose
   * text replaces body and window unless the body is to be preserved.
   */
  lemma OutcomeByNumbers(d: Draft, texts: Texts, path: Text)
    ensures var o := OutcomeOf(d, texts, path);
            var room := |PrintFields(d.fields + Closing(d.fd, d.pos, d.end, |d.body|))|;
            && (Substituted(d) <==> d.status >= 400 || room + 2 >= 4096)
            && if d.status < 400 && room + 2 < 4096 then
              && o.status == d.status && o.body == d.body && o.fd == d.fd && o.file == d.file
              && o.pos == d.pos && o.end == d.end && o.closed == d.closed
            else
              var fd := if d.status < 400 && room < 4096 then 507 else d.fd;
              && o.status == (if d.status < 400 && room >= 4096 then 507 else d.status) && o.file == d.file
              && if d.keepBody then
                   o.body == d.body && o.fd == fd && o.pos == d.pos && o.end == d.end && o.closed == d.closed
                 else
                   && o.body == texts.errorBody(path, o.status) && o.pos == 0 && o.end == 0
                   && o.fd == (if fd > 0 then 0 else fd) && o.closed == d.closed + if fd > 0 then [fd] else []
  {
    hide Ascii, PrintLong, PrintFields, PrintField;
    NamesSpell();
    var n := Promised(d.fd, d.pos, d.end, |d.body|);
    PrintFieldsSnoc(d.fields, LengthField(n));
    PrintFieldsSnoc(d.fields + [LengthField(n)], SERVER_FIELD);
    assert d.fields + [LengthField(n)] + [SERVER_FIELD] == d.fields + Closing(d.fd, d.pos, d.end, |d.body|);
  }

  /** How a call of the file sender ends: to be resumed, broken, or done, with or without another request to follow. */
  datatype FileOutcome = Suspended | Dropped | Finished(keep: bool)

  class Response {
    const block: HeaderBlock
    const vecs: array<IoVec>
    var start: seq<byte>
    var body: seq<byte>
    var fd: int
    /** What can be read from the descriptor. */
    var file: seq<byte>
    var pos: nat
    var end: int
    var preserveHeaders: bool
    var preserveBody: bool
    var allowFlags: Method

    /** The descriptors that were closed, in order. */
    ghost var closed: seq<int>

    ghost predicate Valid()
      reads this, block, block.buf
    {
      && block.Valid() && vecs.Length == 3
      && pos <= INT64_MAX && -1 <= end <= INT64_MAX && |body| <= INT64_MAX && |file| <= INT64_MAX
    }

    /** What the handler has shaped so far. */
    ghost function Drafted(status: nat): Draft
      reads this, block`fields
    {
      Draft(status, block.fields, body, fd, file, pos, end, preserveHeaders, preserveBody, allowFlags, closed)
    }

    /** The response holds what `o` says of it, and the block the fields of `d` as they became. */
    ghost predicate Became(d: Draft, o: Outcome)
      reads this, block`fields
    {
      && body == o.body && fd == o.fd && file == o.file && pos == o.pos && end == o.end && closed == o.closed
      && block.fields == FieldsOf(d, o)
    }

    /** A body range that starts behind the body: its length wraps around, and no kernel takes such a buffer. */
    ghost predicate BehindTheBody(verb: Method)
      reads this`fd, this`pos, this`body
    {
      fd == FD_DISABLE && verb != HEAD && pos > |body|
    }

    constructor ()
      ensures Valid() && fresh(block) && fresh(block.buf) && fresh(vecs)
      ensures Blank() && closed == [] && block.buf.Length == HTTP_BUFSZ && vecs.Length == 3 && !block.ended
    {
      block := new HeaderBlock();
      vecs := new IoVec[3](_ => IoVec([], 0, 0));
      start, body, file, fd, pos, end := [], [], [], 0, 0, 0;
      preserveHeaders, preserveBody, allowFlags := false, false, {};
      closed := [];
    }

    /** As `cleanup_client` leaves it. */
    ghost predicate Blank()
      reads this, block, block.buf
    {
      && Valid() && !block.ended && block.fields == []
      && body == [] && file == [] && fd == 0 && pos == 0 && end == 0 && !preserveHeaders && !preserveBody && allowFlags == {}
    }

    /** The response part of `cleanup_client`; a descriptor that is still open stays open. */
    method Reset()
      requires block.buf.Length == HTTP_BUFSZ && vecs.Length == 3
      modifies this, block
      ensures Blank() && closed == old(closed)
    {
      block.len, block.fields, block.ended := 0, [], false;
      start, body, file, fd, pos, end := [], [], [], 0, 0, 0;
      preserveHeaders, preserveBody, allowFlags := false, false, {};
    }

    /** `close_fd_to_zero`. */
    method CloseFd()
      modifies this`fd, this`closed
      ensures closed == old(closed) + if old(fd) > 0 then [old(fd)] else []
      ensures fd == if old(fd) > 0 then 0 else old(fd)
    {
      if fd > 0 {
        closed := closed + [fd];
        fd := 0;
      }
    }

    /** `kitserv_api_send_file`: an earlier descriptor is closed, the window becomes the whole file. */
    method SendFile(newFd: int, fileSize: nat, content: seq<byte>)
      requires Valid() && fileSize <= INT64_MAX && |content| <= INT64_MAX
      modifies this`fd, this`file, this`pos, this`end, this`closed
      ensures Valid() && fd == newFd && file == content && pos == 0
      ensures closed == old(closed) + if old(fd) > 0 then [old(fd)] else []
      ensures newFd != FD_DISABLE ==> end == fileSize - 1 && GoodWindow(fileSize, 0, end)
      ensures newFd != FD_DISABLE ==> Promised(fd, pos, end, |body|) == fileSize
      ensures newFd == FD_DISABLE ==> end == old(end) && Promised(fd, pos, end, |body|) == |body|
    {
      if fd > 0 {
        closed := closed + [fd];
      }
      fd, file := newFd, content;
      pos := 0;
      if newFd != FD_DISABLE {
        end := fileSize - 1;
      }
    }

    /** `kitserv_api_set_send_range`: negative bounds are refused; nothing relates the bounds to each other or to the file. */
    method SetSendRange(first: int, last: int) returns (ok: bool)
      requires Valid() && first <= INT64_MAX && last <= INT64_MAX
      modifies this`pos, this`end
      ensures Valid() && (ok <==> first >= 0 && last >= 0)
      ensures ok ==> pos == first && end == last
      ensures !ok ==> pos == old(pos) && end == old(end)
      ensures ok ==> forall size: nat :: GoodWindow(size, pos, end) <==> first <= last + 1 && (last < size || first == last + 1)
    {
      ok := first >= 0 && last >= 0;
      if ok {
        pos, end := first, last;
      }
    }

    /** `kitserv_api_write_body`: the body grows by all of `text` or stays as it is; `memory` says whether it can grow. */
    method WriteBody(text: seq<byte>, memory: bool) returns (ok: bool)
      requires Valid()
      modifies this`body
      ensures Valid() && (ok <==> memory && |old(body)| + |text| <= INT64_MAX)
      ensures body == old(body) + if ok then text else []
    {
      ok := memory && |body| + |text| <= INT64_MAX;
      if ok {
        body := body + text;
      }
    }

    // ----- kitserv_http_prepare_response -----

    /** How far content-length and server fill the block. */
    ghost function Full(): int
      reads this, block
    {
      block.len + |PrintField(LengthField(Promised(fd, pos, end, |body|)))| + |PrintField(SERVER_FIELD)|
    }

    /** What the last part of a response must hold. */
    ghost predicate Assembled(verb: Method)
      reads this, block, block.buf, vecs
    {
      && Valid()
      && block.ended
      && GoodVecs(vecs)
      && Slice(vecs[0]) == start
      && Slice(vecs[1]) == block.Contents()
      && (if fd == FD_DISABLE && verb != HEAD then pos <= |body| && Slice(vecs[2]) == body[pos..] else Slice(vecs[2]) == [])
    }

    /** The buffers can be sent, or are too long for any `writev`. */
    ghost predicate Loaded(verb: Method)
      reads this, block, block.buf, vecs
    {
      if BehindTheBody(verb) then TooLong(vecs) else Assembled(verb)
    }

    /**
     * The part from `success` on (src/http.c:1257-1293): content-length, server, the empty line, and the buffers to
     * send. It fails when the block has no room, before anything is sent.
     */
    method Assemble(status: nat, verb: Method, version: Version, texts: Texts) returns (ok: bool, status': nat)
      requires Valid() && !block.ended
      modifies this`start, this`fd, block, block.buf, vecs
      ensures Valid() && block.ended == ok
      ensures ok <==> old(Full()) + 2 < HTTP_BUFSZ
      ensures ok ==> status' == status && fd == old(fd) && start == texts.startLine(version, status)
      ensures ok ==> block.fields == old(block.fields) + [LengthField(Promised(fd, pos, end, |body|)), SERVER_FIELD]
      ensures ok ==> Loaded(verb)
      ensures !ok ==> NoRoom(old(block.len), old(Promised(fd, pos, end, |body|)))
      ensures !ok ==> if old(Full()) >= HTTP_BUFSZ then fd == old(fd) && status' == HTTP_507_INSUFFICIENT_STORAGE
                      else fd == 507 && status' == status
    {
      hide PrintLong, PrintFields, PrintField;
      start := texts.startLine(version, status);
      status' := status;
      var n := Promised(fd, pos, end, |body|);
      ok := block.Add(LengthField(n));
      if !ok {
        return false, HTTP_507_INSUFFICIENT_STORAGE;
      }
      ok := block.Add(SERVER_FIELD);
      if !ok {
        return false, HTTP_507_INSUFFICIENT_STORAGE;
      }
      ok := block.Finish();
      if !ok {
        fd := 507;
        return false, status;
      }
      LoadBuffers(verb);
    }

    /** The buffers as sending expects them (src/http.c:1283-1290). */
    method LoadBuffers(verb: Method)
      requires Valid() && block.ended
      modifies vecs
      ensures Valid()
      ensures Loaded(verb)
    {
      hide PrintFields;
      var contents := block.Contents();
      vecs[0] := IoVec(start, 0, |start|);
      vecs[1] := IoVec(contents, 0, |contents|);
      vecs[2] := IoVec([], 0, 0);
      if fd == FD_DISABLE && verb != HEAD {
        vecs[2] := IoVec(body, pos, AsSize(|body| - pos));
      }
    }

    /** The block is too full for the fields that every response needs, and the empty line. */
    ghost predicate NoRoomLeft()
      reads block`len
    {
      block.len + 38 >= HTTP_BUFSZ
    }

    /** After a failed assembly the block is too full for what was to come next. */
    ghost predicate NoRoom(before: nat, n: int)
      reads block
    {
      var first := |PrintField(LengthField(n))|;
      || (block.len == before && before + first >= HTTP_BUFSZ)
      || (block.len == before + first && block.len + |PrintField(SERVER_FIELD)| >= HTTP_BUFSZ)
      || (block.len == before + first + |PrintField(SERVER_FIELD)| && block.len + 2 >= HTTP_BUFSZ)
    }

    /**
     * The part from `error_response` on (src/http.c:1303-1310): headers and body give way to those of the error, each
     * unless it is to be preserved. `memory` says whether the body buffer can grow.
     */
    method SubstituteError(status: nat, texts: Texts, path: Text, memory: bool) returns (ok: bool)
      requires Valid() && !block.ended && |texts.errorBody(path, status)| <= INT64_MAX
      modifies this`fd, this`pos, this`end, this`body, this`closed, block, block.buf
      ensures Valid() && !block.ended
      ensures var how := HowOf(true, preserveHeaders, preserveBody, status, AllowField(texts, allowFlags));
              && (ok ==> block.fields == Composed(old(block.fields), how))
              && (ok <==> preserveBody || (memory && |PrintFields(Composed(old(block.fields), how))| < HTTP_BUFSZ))
      ensures block.len == |PrintFields(block.fields)|
      ensures preserveBody ==> fd == old(fd) && pos == old(pos) && end == old(end) && body == old(body) && closed == old(closed)
      ensures !preserveBody && ok ==> body == texts.errorBody(path, status) && pos == 0 && end == 0
      ensures !preserveBody && ok ==>
                && fd == (if old(fd) > 0 then 0 else old(fd))
                && closed == old(closed) + if old(fd) > 0 then [old(fd)] else []
      ensures closed == old(closed) || closed == old(closed) + if old(fd) > 0 then [old(fd)] else []
    {
      hide PrintFields, PrintField;
      ComposedLengths(block.fields, AllowField(texts, allowFlags));
      if preserveBody {
        return true;
      }
      if !preserveHeaders {
        block.Wipe();
        if status == HTTP_405_METHOD_NOT_ALLOWED {
          ok := block.Add(AllowField(texts, allowFlags));
          if !ok {
            return false;
          }
        }
      }
      ok := SubstituteBody(texts.errorBody(path, status), memory);
    }

    /** `prepare_error_response_body`. */
    method SubstituteBody(text: seq<byte>, memory: bool) returns (ok: bool)
      requires Valid() && !block.ended && |text| <= INT64_MAX
      modifies this`fd, this`pos, this`end, this`body, this`closed, block, block.buf
      ensures Valid() && !block.ended
      ensures ok <==> memory && old(block.len) + |PrintField(TYPE_FIELD)| < HTTP_BUFSZ
      ensures ok ==> block.fields == old(block.fields) + [TYPE_FIELD] && body == text
      ensures ok ==> block.len == old(block.len) + |PrintField(TYPE_FIELD)|
      ensures pos == 0 && end == 0 && fd == (if old(fd) > 0 then 0 else old(fd))
      ensures closed == old(closed) + if old(fd) > 0 then [old(fd)] else []
    {
      hide PrintFields, PrintField;
      pos, end, body := 0, 0, [];
      CloseFd();
      ok := block.Add(TYPE_FIELD);
      if !ok || !memory {
        return false;
      }
      body := text;
    }

    /** How long the fields of an error are. */
    static lemma ComposedLengths(added: seq<HeaderField>, allow: HeaderField)
      ensures |PrintFields(Composed(added, WithType))| == |PrintFields(added)| + |PrintField(TYPE_FIELD)|
      ensures |PrintFields(Composed(added, Replaced(None)))| == |PrintField(TYPE_FIELD)|
      ensures |PrintFields(Composed(added, Replaced(Some(allow))))| == |PrintField(allow)| + |PrintField(TYPE_FIELD)|
      ensures |PrintFields([])| == 0 && |PrintFields([allow])| == |PrintField(allow)|
    {
      hide PrintFields, PrintField;
      PrintFieldsSnoc(added, TYPE_FIELD);
      PrintFieldsSnoc([], TYPE_FIELD);
      PrintFieldsSnoc([], allow);
      PrintFieldsSnoc([allow], TYPE_FIELD);
      NothingPrinted();
      assert [] + [TYPE_FIELD] == [TYPE_FIELD] && [] + [allow] == [allow] && [allow] + [TYPE_FIELD] == [allow, TYPE_FIELD];
    }

    static lemma NothingPrinted()
      ensures PrintFields([]) == []
    {
    }

    static lemma KeptIsLonger(here: seq<HeaderField>, keepHeaders: bool, keepBody: bool, status: nat, allow: HeaderField)
      requires keepHeaders || keepBody
      ensures |PrintFields(Composed(here, HowOf(true, keepHeaders, keepBody, status, allow)))| >= |PrintFields(here)|
    {
      hide PrintFields, PrintField;
      ComposedLengths(here, allow);
    }

    /** The room that all fields of a response take. */
    static lemma AllFieldsLength(added: seq<HeaderField>, how: How, n: int)
      ensures |PrintFields(AllFields(added, how, n))| ==
              |PrintFields(Composed(added, how))| + |PrintField(LengthField(n))| + |PrintField(SERVER_FIELD)|
    {
      hide PrintFields, PrintField, Composed;
      var fields := Composed(added, how);
      PrintFieldsSnoc(fields, LengthField(n));
      PrintFieldsSnoc(fields + [LengthField(n)], SERVER_FIELD);
      assert fields + [LengthField(n)] + [SERVER_FIELD] == fields + [LengthField(n), SERVER_FIELD];
    }

    /**
     * `kitserv_http_prepare_response`: one pass, or a second one with an error in place of what did not fit. It succeeds
     * exactly when it can, and makes of the draft exactly its outcome: whole fields, one empty line, and the buffers to
     * send. When it fails nothing is sent, and at most the descriptor that an error would replace is closed.
     */
    method Prepare(status0: nat, verb: Method, version: Version, path: Text, texts: Texts, memory: bool)
        returns (ok: bool, status: nat)
      requires Valid() && !block.ended
      requires forall p, s :: |texts.errorBody(p, s)| <= INT64_MAX
      modifies this`start, this`fd, this`pos, this`end, this`body, this`closed, block, block.buf, vecs
      ensures Valid()
      ensures ok <==> CanPrepare(old(Drafted(status0)), texts, path, memory)
      ensures ok ==> block.ended && start == texts.startLine(version, status) && Loaded(verb)
      ensures var d := old(Drafted(status0));
              var o := OutcomeOf(d, texts, path);
              && (ok ==> Became(d, o) && status == o.status)
              && (!ok ==> closed == d.closed || closed == o.closed)
    {
      hide PrintFields, PrintField, Composed, HowOf;
      ghost var d := Drafted(status0);
      SentAsAdded(d.fields, Promised(fd, pos, end, |body|));
      FirstPassRoom(d);
      status := status0;
      if status0 == HTTP_X_HANGUP {
        return false, status0;
      }
      if !StatusIsError(status0) {
        RoomNeeded(Promised(fd, pos, end, |body|));
        ok, status := Assemble(status0, verb, version, texts);
        if ok {
          return true, status;
        }
      }
      ok, status := PrepareError(status, verb, version, path, texts, memory, d);
    }

    /** The first pass needs the room of the fields as they are added. */
    static lemma FirstPassRoom(d: Draft)
      ensures |PrintFields(AllFields(d.fields, AsAdded, Promised(d.fd, d.pos, d.end, |d.body|)))| == NeededRoom(d)
    {
      hide PrintFields, PrintField;
      AllFieldsLength(d.fields, AsAdded, Promised(d.fd, d.pos, d.end, |d.body|));
    }

    /** Where the error pass starts: the first pass was skipped, or left the block too full. */
    ghost predicate Failed(status: nat, d: Draft)
      reads this, block
    {
      && Substituted(d) && d.status != HTTP_X_HANGUP && status == StatusThen(d) && fd == FdThen(d)
      && body == d.body && file == d.file && pos == d.pos && end == d.end && closed == d.closed
      && preserveHeaders == d.keepHeaders && preserveBody == d.keepBody && allowFlags == d.allow
      && (if StatusIsError(d.status) then block.fields == d.fields else NoRoomLeft())
    }

    /** The pass from `error_response` on; `d` is the draft as the handler left it. */
    method PrepareError(status0: nat, verb: Method, version: Version, path: Text, texts: Texts, memory: bool,
                        ghost d: Draft) returns (ok: bool, status: nat)
      requires Valid() && !block.ended && |texts.errorBody(path, status0)| <= INT64_MAX
      requires Failed(status0, d)
      modifies this`start, this`fd, this`pos, this`end, this`body, this`closed, block, block.buf, vecs
      ensures Valid()
      ensures ok <==> CanPrepare(d, texts, path, memory)
      ensures ok ==> block.ended && start == texts.startLine(version, status) && Loaded(verb)
      ensures var o := OutcomeOf(d, texts, path);
              && (ok ==> Became(d, o) && status == o.status)
              && (!ok ==> closed == d.closed || closed == o.closed)
    {
      hide PrintFields, PrintField, Composed, HowOf, OutcomeOf;
      SecondOutcome(d, texts, path);
      status := status0;
      ghost var here, o := block.fields, OutcomeOf(d, texts, path);
      ghost var n := Promised(o.fd, o.pos, o.end, |o.body|);
      assert block.len == |PrintFields(here)|;
      AllFieldsLength(d.fields, o.how, n);
      RoomNeeded(n);
      if here == d.fields || (!preserveHeaders && !preserveBody) {
        ReplacedForgets(here, d.fields, preserveHeaders, preserveBody, status, AllowField(texts, allowFlags));
      }
      if preserveHeaders || preserveBody {
        KeptIsLonger(here, preserveHeaders, preserveBody, status, AllowField(texts, allowFlags));
      }
      ok := SubstituteError(status, texts, path, memory);
      if !ok {
        return false, status;
      }
      assert Full() == |PrintFields(Composed(here, o.how))| + |PrintField(LengthField(n))| + |PrintField(SERVER_FIELD)|;
      assert !StatusIsError(d.status) && (preserveHeaders || preserveBody) ==> Full() + 2 >= HTTP_BUFSZ;
      ok, status := Assemble(status, verb, version, texts);
    }

    static lemma RoomNeeded(n: int)
      requires INT64_MIN <= n <= INT64_MAX + 1
      ensures 19 <= |PrintField(LengthField(n))| <= 38
      ensures |PrintField(SERVER_FIELD)| == 17 && |PrintField(TYPE_FIELD)| == 26
    {
      PrintLongLength(n);
    }

    // ----- kitserv_http_send_response_file -----

    /** The transfer that began at `first`, when `before` was on the wire, has reached `pos`. */
    ghost predicate Transferred(file: seq<byte>, first: nat, before: seq<byte>, wire: Wire)
      reads this, wire
    {
      && first <= pos
      && (pos <= end + 1 || pos == first)
      && pos - first == |Available(file, first, pos - first)|
      && wire.sent == before + Available(file, first, pos - first)
    }

    /**
     * The loop around `sendfile` (src/http.c:1397-1405). With a window that ends before it starts, the count wraps
     * around and a single call may send anything up to the end of the file.
     */
    method Transfer(wire: Wire, file: seq<byte>, ghost first: nat, ghost before: seq<byte>) returns (rc: WriteResult)
      requires Valid() && Transferred(file, first, before, wire) && |file| <= INT64_MAX
      modifies this`pos, wire
      ensures Valid() && |wire.script| <= |old(wire.script)| && wire.last == rc && old(wire.asked) < wire.asked
      ensures first <= end + 1 ==> Transferred(file, first, before, wire)
      ensures first <= end + 1 && rc.Wrote? ==> pos == end + 1 || (pos <= end && pos >= |file|)
      ensures first <= pos
      ensures first > end + 1 ==> pos > end && wire.sent == before + Available(file, first, pos - first)
      ensures first > end + 1 ==> Available(file, first, pos - first) <= Available(file, first, AsSize(end - first + 1))
    {
      hide Available, AsSize;
      while true
        invariant Valid() && Transferred(file, first, before, wire)
        invariant |wire.script| <= |old(wire.script)| && old(wire.asked) <= wire.asked
        decreases |wire.script|
      {
        var count := AsSize(end - pos + 1);
        var offer := Available(file, pos, count);
        rc := wire.Write(offer);
        AvailableBounds(file, pos, count);
        if first <= end + 1 {
          SizeOfGoodWindow(end - pos + 1);
        }
        if rc.Wrote? {
          AvailableExtends(file, first, pos, count, rc.n);
          pos := pos + rc.n;
        } else {
          AvailableExtends(file, first, pos, count, 0);
        }
        if !rc.Wrote? || rc.n == 0 || pos > end {
          return;
        }
      }
    }

    /**
     * `kitserv_http_send_response_file`. Leaving the state, a file response has delivered its window; the descriptor is
     * closed exactly if the transfer could reach the end of the window. `first` and `before` describe the transfer as it began.
     */
    method SendResponseFile(wire: Wire, file: seq<byte>, verb: Method, version: Version, status: nat,
                            ghost first: nat, ghost before: seq<byte>) returns (out: FileOutcome)
      requires Valid() && |file| <= INT64_MAX
      requires fd > 0 && verb != HEAD ==> Transferred(file, first, before, wire)
      modifies this`pos, this`fd, this`closed, wire
      ensures Valid() && |wire.script| <= |old(wire.script)|
      ensures old(fd) <= 0 || verb == HEAD ==>
                out.Finished? && wire.sent == old(wire.sent) && fd == old(fd) && closed == old(closed) && pos == old(pos)
      ensures out.Finished? ==> (out.keep <==> !StatusIsError(status) && version != Http10)
      ensures out.Finished? && old(fd) > 0 && verb != HEAD ==>
                && first <= pos
                && wire.sent == before + Available(file, first, pos - first)
                && Delivers(file, first, end, Available(file, first, pos - first))
                && (pos > end <==> ReachesTheEnd(|file|, first, end))
                && (if ReachesTheEnd(|file|, first, end) then fd == 0 && closed == old(closed) + [old(fd)]
                    else fd == old(fd) && closed == old(closed))
      ensures out.Suspended? ==>
                fd == old(fd) && closed == old(closed) && (fd > 0 && verb != HEAD) && Transferred(file, first, before, wire)
      ensures out.Dropped? ==>
                fd == old(fd) && closed == old(closed) && (fd > 0 && verb != HEAD) && Transferred(file, first, before, wire)
      ensures out.Suspended? ==> wire.last.Again? && old(wire.asked) < wire.asked
      ensures old(wire.asked) <= wire.asked
      ensures out.Dropped? ==> wire.last.Error?
    {
      hide Available, Delivers, GoodWindow;
      if fd > 0 && verb != HEAD {
        var rc := Transfer(wire, file, first, before);
        if pos > end || rc.Wrote? {
          DeliversWhatIsThere(file, first, end, pos);
        }
        if pos > end {
          CloseFd();
        } else if rc.Again? {
          return Suspended;
        } else if rc.Error? {
          return Dropped;
        }
      }
      return Finished(!(StatusIsError(status) || version == Http10));
    }
  }

  lemma DeliversWhatIsThere(file: seq<byte>, first: nat, end: int, pos: nat)
    requires first <= pos
    requires first <= end + 1 ==>
               pos - first == |Available(file, first, pos - first)| && (pos == end + 1 || (pos <= end && pos >= |file|))
    requires first > end + 1 ==>
               pos > end && Available(file, first, pos - first) <= Available(file, first, AsSize(end - first + 1))
    ensures Delivers(file, first, end, Available(file, first, pos - first))
    ensures pos > end <==> ReachesTheEnd(|file|, first, end)
  {
  }

  lemma NothingAvailable(file: seq<byte>, first: nat)
    ensures Available(file, first, 0) == []
  {
  }

  lemma SizeOfGoodWindow(n: int)
    requires n >= 0
    ensures AsSize(n) == n
  {
  }

  lemma AvailableBounds(file: seq<byte>, pos: nat, count: nat)
    ensures |Available(file, pos, count)| <= count
    ensures Available(file, pos, count) != [] ==> pos + |Available(file, pos, count)| <= |file|
    ensures Available(file, pos, count) == [] ==> count == 0 || pos >= |file|
  {
  }

  /** Sending the first `n` of the bytes available at `pos` extends what was sent from `first` on. */
  lemma AvailableExtends(file: seq<byte>, first: nat, pos: nat, count: nat, n: nat)
    requires first <= pos && pos - first == |Available(file, first, pos - first)|
    requires n <= |Available(file, pos, count)|
    ensures Available(file, first, pos + n - first) == Available(file, first, pos - first) + Available(file, pos, count)[..n]
    ensures |Available(file, first, pos + n - first)| == pos + n - first
    ensures pos == first ==> Available(file, first, n) <= Available(file, first, count)
  {
    if pos < |file| {
      var m := Min(|file|, pos + count);
      assert pos + n <= m;
      assert Available(file, first, pos - first) == file[first..pos];
      assert Available(file, pos, count)[..n] == file[pos..m][..n] == file[pos..pos + n];
      assert Available(file, first, pos + n - first) == file[first..pos + n] == file[first..pos] + file[pos..pos + n];
    } else {
      assert Available(file, pos, count) == [];
      assert n == 0 && Available(file, first, pos - first) + [] == Available(file, first, pos - first);
    }
  }
}
