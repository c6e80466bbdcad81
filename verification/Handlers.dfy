/** What a handler can do through the public interface (src/api.c), and what that makes of its response. */
module Handlers {
  import opened Bytes
  import opened Numbers
  import opened Requests
  import opened Headers
  import opened Clients
  import Cookies
  import Ranges
  import opened Responses

  type Content = s: seq<byte> | |s| <= INT64_MAX

  /**
   * The calls of the public interface, and the methods that routing found. A descriptor comes with what can be read from
   * it; `memory` says whether the body can grow.
   */
  datatype ApiCall =
    | ReadPayload(n: nat)
    | GetCookie(key: seq<byte>, keylen: int)
    | GetRange
    | WriteBody(text: seq<byte>, memory: bool)
    | AddHeader(field: HeaderField)
    | SendFile(fd: int, size: Size, content: Content)
    | SetRange(from: Offset, to: Offset)
    | PreserveHeaders(on: bool)
    | PreserveBody(on: bool)
    | ResetHeaders
    | ResetBody
    | AllowOnly(methods: Method)
    | SetStatus(status: nat)

  /** A line fits that leaves room for a NUL. */
  predicate Fits(fields: seq<HeaderField>, field: HeaderField)
  {
    |PrintFields(fields)| + |PrintField(field)| < HTTP_BUFSZ
  }

  /** What a call makes of the response. A field that does not fit makes the status 507. */
  function Shape(d: Draft, call: ApiCall): Draft
  {
    match call
    case WriteBody(text, memory) => if memory && |d.body| + |text| <= INT64_MAX then d.(body := d.body + text) else d
    case AddHeader(field) =>
      if Fits(d.fields, field) then d.(fields := d.fields + [field]) else d.(status := HTTP_507_INSUFFICIENT_STORAGE)
    case SendFile(fd, size, content) =>
      d.(fd := fd, file := content, pos := 0, end := if fd == FD_DISABLE then d.end else size - 1,
         closed := d.closed + if d.fd > 0 then [d.fd] else [])
    case SetRange(from, to) => if from < 0 || to < 0 then d else d.(pos := from, end := to)
    case PreserveHeaders(on) => d.(keepHeaders := on)
    case PreserveBody(on) => d.(keepBody := on)
    case ResetHeaders => d.(fields := [])
    case ResetBody => d.(body := [])
    case AllowOnly(methods) => d.(allow := methods)
    case SetStatus(status) => d.(status := status)
    case _ => d
  }

  /** What a handler works on: a request, and a socket that can break or not. */
  datatype Setting = Setting(request: Request, breaks: bool)

  /**
   * What a call did: what a lookup found; for payload, the bytes that were handed out, or those that were taken and lost
   * when the socket broke; and itself for all others.
   */
  datatype Deed =
    | Called(call: ApiCall)
    | FoundCookie(key: seq<byte>, keylen: int, value: Option<seq<byte>>)
    | FoundRange(bounds: Option<Ranges.Bounds>)
    | Fetched(n: nat, got: seq<byte>)
    | Broke(n: nat, lost: seq<byte>)

  /** What a deed makes of the response: lookups and payload leave it alone, unless the socket broke. */
  function ShapeDeed(d: Draft, deed: Deed): Draft
  {
    match deed
    case Called(call) => Shape(d, call)
    case Broke(_, _) => d.(status := HTTP_X_HANGUP)
    case _ => d
  }

  function ShapeAll(d: Draft, deeds: seq<Deed>): Draft
  {
    if deeds == [] then d else ShapeDeed(ShapeAll(d, deeds[..|deeds| - 1]), deeds[|deeds| - 1])
  }

  /** What the runs of a handler make of the response, one after the other. */
  function ShapeRuns(d: Draft, runs: seq<seq<Deed>>): Draft
  {
    if runs == [] then d else ShapeAll(ShapeRuns(d, runs[..|runs| - 1]), runs[|runs| - 1])
  }

  /** The payload that was taken. */
  function TakenBy(deed: Deed): seq<byte>
  {
    match deed
    case Fetched(_, got) => got
    case Broke(_, lost) => lost
    case _ => []
  }

  function Taken(deeds: seq<Deed>): seq<byte>
  {
    if deeds == [] then [] else Taken(deeds[..|deeds| - 1]) + TakenBy(deeds[|deeds| - 1])
  }

  function TakenIn(runs: seq<seq<Deed>>): seq<byte>
  {
    if runs == [] then [] else TakenIn(runs[..|runs| - 1]) + Taken(runs[|runs| - 1])
  }

  /** The response before the handler's first call: nothing to send, after `closed` were closed. */
  function Begin(closed: seq<int>, status: nat): Draft
  {
    Draft(status, [], [], 0, [], 0, 0, false, false, {}, closed)
  }

  lemma ShapeOneMore(d: Draft, deeds: seq<Deed>, deed: Deed)
    ensures ShapeAll(d, deeds + [deed]) == ShapeDeed(ShapeAll(d, deeds), deed)
    ensures Taken(deeds + [deed]) == Taken(deeds) + TakenBy(deed)
  {
    hide ShapeDeed;
    assert (deeds + [deed])[..|deeds|] == deeds;
  }

  lemma ShapeOneMoreRun(d: Draft, runs: seq<seq<Deed>>, deeds: seq<Deed>)
    ensures ShapeRuns(d, runs + [deeds]) == ShapeAll(ShapeRuns(d, runs), deeds)
    ensures TakenIn(runs + [deeds]) == TakenIn(runs) + Taken(deeds)
  {
    hide ShapeAll, Taken;
    assert (runs + [deeds])[..|runs|] == runs;
  }

  /** What a lookup of a cookie is to find: the first with the name, if the name is as long as it is said to be. */
  function CookieNamed(q: Request, key: seq<byte>, keylen: int): Option<seq<byte>>
  {
    if keylen == |CString(key)| && keylen > 0 then Cookies.Lookup(CookiesOf(q), CString(key)) else None
  }

  /** The value is that of the first cookie with the name, which must not be empty. */
  lemma CookieNamedIsFirst(q: Request, key: seq<byte>, keylen: int)
    ensures var found, ps, name := CookieNamed(q, key, keylen), CookiesOf(q), CString(key);
            && (found.Some? <==> keylen == |name| > 0 && exists i :: 0 <= i < |ps| && ps[i].key == name)
            && (found.Some? ==> exists i :: Cookies.FirstNamed(ps, name, i) && found == Some(ps[i].value))
  {
    hide CookiesOf, Cookies.Lookup, CString;
    Cookies.LookupIsFirst(CookiesOf(q), CString(key));
  }

  function RangeAsked(q: Request): Option<Ranges.Bounds>
  {
    if q.range.At? then Ranges.ParseRange(q.range.text) else None
  }

  /** A call did what it is there for; only if the socket can break payload gets lost. */
  predicate Did(call: ApiCall, deed: Deed, s: Setting)
  {
    match deed
    case Called(c) => c == call && !call.ReadPayload? && !call.GetCookie? && !call.GetRange?
    case FoundCookie(key, keylen, value) => call == GetCookie(key, keylen) && value == CookieNamed(s.request, key, keylen)
    case FoundRange(bounds) => call == GetRange && bounds == RangeAsked(s.request)
    case Fetched(n, got) => call == ReadPayload(n) && |got| <= n
    case Broke(n, lost) => call == ReadPayload(n) && |lost| < n && s.breaks
  }

  /**
   * What a handler gets to know. A lookup finds the first cookie with the name, or the range of the request; payload is
   * at most what was asked for, and less of it is lost only when the socket breaks; all other calls are as made.
   */
  lemma WhatACallDid(call: ApiCall, deed: Deed, s: Setting)
    requires Did(call, deed, s)
    ensures call.GetCookie? ==>
              var name, ps := CString(call.key), CookiesOf(s.request);
              && deed.FoundCookie? && deed.key == call.key && deed.keylen == call.keylen
              && (deed.value.Some? <==> call.keylen == |name| > 0 && exists i :: 0 <= i < |ps| && ps[i].key == name)
              && (deed.value.Some? ==> exists i :: Cookies.FirstNamed(ps, name, i) && deed.value == Some(ps[i].value))
    ensures call.GetRange? ==>
              && deed.FoundRange? && (deed.bounds.Some? ==> s.request.range.At?)
              && forall r :: deed.bounds == Some(r) <==>
                   s.request.range.At? && exists a, b :: Ranges.IsRangeText(s.request.range.text, r, a, b)
    ensures call.ReadPayload? ==>
              || (deed.Fetched? && deed.n == call.n && |deed.got| <= call.n)
              || (deed.Broke? && deed.n == call.n && |deed.lost| < call.n && s.breaks)
    ensures !call.GetCookie? && !call.GetRange? && !call.ReadPayload? ==> deed == Called(call)
  {
    hide CookiesOf, Cookies.Lookup, Ranges.ParseRange, Ranges.IsRangeText, CString, CookieNamed;
    if call.GetCookie? {
      CookieNamedIsFirst(s.request, call.key, call.keylen);
    } else if call.GetRange? && s.request.range.At? {
      forall r
        ensures Ranges.ParseRange(s.request.range.text) == Some(r) <==>
                exists a, b :: Ranges.IsRangeText(s.request.range.text, r, a, b)
      {
        Ranges.RangeTextsAccepted(s.request.range.text, r);
      }
    }
  }

  /** Call by call. */
  predicate DidAll(calls: seq<ApiCall>, deeds: seq<Deed>, s: Setting)
  {
    |deeds| == |calls| && forall i :: 0 <= i < |calls| ==> Did(calls[i], deeds[i], s)
  }

  /** One run of kitserv_http_serve_request; `final` when no handler is involved, so that the request moves on anyway. */
  datatype Handling = Handling(calls: seq<ApiCall>, final: bool)

  /** The handling that comes next; without any, no resource is found. */
  function NextHandling(hs: seq<Handling>): Handling
  {
    if hs == [] then Handling([SetStatus(HTTP_404_NOT_FOUND)], true) else hs[0]
  }

  /** What is left of the plan when `k` handlings were used. */
  function Rest(plan: seq<Handling>, k: nat): seq<Handling> { if k < |plan| then plan[k..] else [] }

  /** A run after which the request moves on. */
  predicate Concludes(h: Handling, status: nat) { h.final || status != HTTP_X_RESP_STATUS_UNSET }

  /**
   * The runs of a handler for one request, from `d` on: each did what the plan says, from its `first` handling on, and
   * the request moves on (`over`) after the first run that concludes it.
   */
  predicate Followed(plan: seq<Handling>, s: Setting, first: nat, d: Draft, runs: seq<seq<Deed>>, over: bool)
    decreases |runs|
  {
    if runs == [] then !over
    else
      var last := |runs| - 1;
      var h := NextHandling(Rest(plan, first + last));
      && Followed(plan, s, first, d, runs[..last], false) && DidAll(h.calls, runs[last], s)
      && (over <==> Concludes(h, ShapeRuns(d, runs).status))
  }

  lemma NothingFollowed(plan: seq<Handling>, s: Setting, first: nat, d: Draft)
    ensures Followed(plan, s, first, d, [], false) && ShapeRuns(d, []) == d && TakenIn([]) == []
  {
  }

  lemma FollowedOneMore(plan: seq<Handling>, s: Setting, first: nat, d: Draft, runs: seq<seq<Deed>>, deeds: seq<Deed>)
    requires Followed(plan, s, first, d, runs, false)
    requires DidAll(NextHandling(Rest(plan, first + |runs|)).calls, deeds, s)
    ensures Followed(plan, s, first, d, runs + [deeds],
                     Concludes(NextHandling(Rest(plan, first + |runs|)), ShapeRuns(d, runs + [deeds]).status))
  {
    hide DidAll, ShapeRuns, Concludes;
    assert (runs + [deeds])[..|runs|] == runs;
  }

  /** What handling `k` of the plan does; behind its end no resource is found. */
  function HandlingAt(plan: seq<Handling>, k: nat): Handling
  {
    if k < |plan| then plan[k] else Handling([SetStatus(404)], true)
  }

  lemma NextIsNth(plan: seq<Handling>, k: nat)
    ensures NextHandling(Rest(plan, k)) == HandlingAt(plan, k)
  {
  }

  /**
   * A handler whose run leaves the status unset is called again, and no other; the request moves on after the first run
   * that sets a status, or that no handler is involved in.
   */
  lemma {:induction false} CalledAgainIff(plan: seq<Handling>, s: Setting, first: nat, d: Draft, runs: seq<seq<Deed>>, over: bool, j: nat)
    requires Followed(plan, s, first, d, runs, over) && j < |runs|
    ensures DidAll(HandlingAt(plan, first + j).calls, runs[j], s)
    ensures !HandlingAt(plan, first + j).final && ShapeRuns(d, runs[..j + 1]).status == 0 <==> !(over && j == |runs| - 1)
    decreases |runs|
  {
    hide DidAll, ShapeRuns, Rest, NextHandling, HandlingAt;
    NextIsNth(plan, first + j);
    var last := |runs| - 1;
    if j < last {
      CalledAgainIff(plan, s, first, d, runs[..last], false, j);
      assert runs[..last][..j + 1] == runs[..j + 1];
    } else {
      assert runs[..j + 1] == runs;
    }
  }

  lemma RestOneLess(plan: seq<Handling>, k: nat)
    ensures Rest(plan, k + 1) == if Rest(plan, k) == [] then [] else Rest(plan, k)[1..]
  {
  }
}
