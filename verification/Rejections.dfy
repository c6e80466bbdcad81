/** Which bytes are rejected with which status, written as characters (src/http.c:624-643, 686-690, 733-757). */
module Rejections {
  import opened Bytes
  import opened Requests
  import opened Splitter
  import opened Grammar

  /** 501 is for a word before the first space that is none of the five methods. */
  lemma UnknownMethodIff(b: seq<byte>)
    ensures (Parse(b).Fail? && Parse(b).status == 501) <==>
            exists n :: 0 <= n < |b| && b[n] == ' ' as int && ' ' as int !in b[..n] && MethodOf(b[..n]).None?
  {
    hide MethodOf, StagePath, Find;
    var e := Find(b, SP, 0);
    assert b[0..e] == b[..e];
    if e < |b| && MethodOf(b[..e]).Some? {
      PathFailures(b, e + 1, e + 1, BLANK.(verb := MethodOf(b[..e]).value));
    }
    forall n | 0 <= n < |b| && b[n] == SP && SP !in b[..n]
      ensures n == e
    {
      FindIs(b, SP, 0, n);
    }
  }

  /** A request with an unknown method is answered as a GET, so that the error comes with its text. */
  lemma UnknownMethodIsAnsweredAsGet(b: seq<byte>)
    requires Parse(b).Fail? && Parse(b).status == 501
    ensures Parse(b).req == BLANK.(verb := {GetBit})
  {
    hide MethodOf, StagePath, Find;
    var e := Find(b, SP, 0);
    if e < |b| && MethodOf(b[0..e]).Some? {
      PathFailures(b, e + 1, e + 1, BLANK.(verb := MethodOf(b[0..e]).value));
    }
  }

  lemma PathFailures(b: seq<byte>, p: nat, r: nat, q: Request)
    requires p <= r <= |b|
    ensures StagePath(b, p, r, q).Fail? ==> StagePath(b, p, r, q).status in {400, 505}
  {
    hide StageHead, AttemptedTraversal, SplitTarget, VersionOf, AllPrint;
    forall r: nat, q | r <= |b|
      ensures StageHead(b, r, r, q).Fail? ==> StageHead(b, r, r, q).status == 400
    {
      HeadFailures(b, r, r, q, false);
    }
  }

  /** 505 is for a version that is neither of the two, behind a method and a target that are good. */
  lemma UnknownVersionIff(b: seq<byte>)
    ensures (Parse(b).Fail? && Parse(b).status == 505) <==>
            exists token: seq<byte>, target: seq<byte>, version: seq<byte>, rest: seq<byte> ::
              VersionUnknown(b, token, target, version, rest)
  {
    hide Parse;
    if Parse(b).Fail? && Parse(b).status == 505 {
      var token, target, version, rest := VersionOfFailure(b);
    }
    if token: seq<byte>, target: seq<byte>, version: seq<byte>, rest: seq<byte> :|
        VersionUnknown(b, token, target, version, rest) {
      VersionFails(b, token, target, version, rest);
    }
  }

  ghost predicate VersionUnknown(b: seq<byte>, token: seq<byte>, target: seq<byte>, version: seq<byte>, rest: seq<byte>)
  {
    && b == token + [' ' as int] + target + [' ' as int] + Ascii("HTTP/") + version + ['\r' as int] + rest
    && MethodOf(token).Some? && ' ' as int !in target && AllPrint(target)
    && !AttemptedTraversal(SplitTarget(target, |token| + 1, BLANK).path.text)
    && '\r' as int !in version && VersionOf(version).None?
  }

  lemma VersionOfFailure(b: seq<byte>) returns (token: seq<byte>, target: seq<byte>, version: seq<byte>, rest: seq<byte>)
    requires Parse(b).Fail? && Parse(b).status == 505
    ensures VersionUnknown(b, token, target, version, rest)
  {
    hide MethodOf, VersionOf, Find, AllPrint, AttemptedTraversal, SplitTarget, Ascii, Parse;
    VersionsByName([]);
    var e1, e2, e3 := WhereItFails(b);
    token, target, version, rest := b[0..e1], b[e1 + 1..e2], b[e2 + 6..e3], b[e3 + 1..];
    TokenIs(b[e2 + 1..e3]);
    TailOfSlice(b, e2 + 1, e3, 5);
    ThreeCuts(b, e1, e2, e3);
    JoinTwice(b[0..e1] + [SP] + target + [SP], HTTP_SLASH, version);
    NotIn(b, SP, e1 + 1, e2);
    NotIn(b, CR, e2 + 6, e3);
  }

  lemma NotIn(b: seq<byte>, c: byte, p: nat, e: nat)
    requires p <= e <= |b| && forall k :: p <= k < e ==> b[k] != c
    ensures c !in b[p..e]
  {
  }

  /** The parser fails so behind a method, a target and the name of the protocol. */
  lemma WhereItFails(b: seq<byte>) returns (e1: nat, e2: nat, e3: nat)
    requires Parse(b).Fail? && Parse(b).status == 505
    ensures e1 < e2 && e2 + 6 <= e3 < |b| && b[e1] == SP && b[e2] == SP && b[e3] == CR
    ensures forall k :: e1 < k < e2 ==> b[k] != SP
    ensures forall k :: e2 < k < e3 ==> b[k] != CR
    ensures MethodOf(b[0..e1]).Some? && AllPrint(b[e1 + 1..e2])
    ensures !AttemptedTraversal(SplitTarget(b[e1 + 1..e2], e1 + 1, BLANK).path.text)
    ensures HTTP_SLASH <= b[e2 + 1..e3] && VersionOf(b[e2 + 6..e3]).None?
  {
    hide MethodOf, VersionOf, Find, AllPrint, AttemptedTraversal, SplitTarget, StageVersionLf;
    e1 := Find(b, SP, 0);
    var q1 := BLANK.(verb := MethodOf(b[0..e1]).value);
    e2 := Find(b, SP, e1 + 1);
    var q2 := SplitTarget(b[e1 + 1..e2], e1 + 1, q1);
    PathDoesNotDepend(b[e1 + 1..e2], e1 + 1, q1);
    e3 := Find(b, CR, e2 + 1);
    LfFailures(b, e3, q2, b[e2 + 1..e3]);
    if HTTP_SLASH <= b[e2 + 1..e3] {
      TailOfSlice(b, e2 + 1, e3, 5);
    }
  }

  lemma TailOfSlice(b: seq<byte>, p: nat, e: nat, k: nat)
    requires p + k <= e <= |b|
    ensures b[p..e][k..] == b[p + k..e]
  {
  }

  lemma JoinTwice(a: seq<byte>, b: seq<byte>, c: seq<byte>)
    ensures a + (b + c) == a + b + c
  {
  }

  lemma ThreeCuts(b: seq<byte>, e1: nat, e2: nat, e3: nat)
    requires e1 < e2 < e3 < |b|
    ensures b == b[0..e1] + [b[e1]] + b[e1 + 1..e2] + [b[e2]] + b[e2 + 1..e3] + [b[e3]] + b[e3 + 1..]
  {
    var a1, a2, a3, tail := b[0..e1] + [b[e1]], b[e1 + 1..e2] + [b[e2]], b[e2 + 1..e3] + [b[e3]], b[e3 + 1..];
    OneCut(b, 0, e1);
    OneCut(b, e1 + 1, e2);
    OneCut(b, e2 + 1, e3);
    FromTheStart(b);
    assert b == a1 + (a2 + (a3 + tail));
    assert a1 + (a2 + (a3 + tail)) == b[0..e1] + [b[e1]] + b[e1 + 1..e2] + [b[e2]] + b[e2 + 1..e3] + [b[e3]] + tail;
  }

  lemma OneCut(b: seq<byte>, p: nat, e: nat)
    requires p <= e < |b|
    ensures b[p..] == (b[p..e] + [b[e]]) + b[e + 1..]
  {
  }

  lemma LfFailures(b: seq<byte>, e: nat, q: Request, token: seq<byte>)
    requires e <= |b|
    ensures e < |b| && HTTP_SLASH <= token && VersionOf(token[5..]).Some? ==>
              var o := StageVersionLf(b, e + 1, q.(version := VersionOf(token[5..]).value));
              o.Fail? ==> o.status == 400
  {
    hide StageHead, VersionOf;
    if e < |b| && HTTP_SLASH <= token && VersionOf(token[5..]).Some? && e + 1 < |b| {
      HeadFailures(b, e + 2, e + 2, q.(version := VersionOf(token[5..]).value), false);
    }
  }

  lemma PathDoesNotDepend(target: seq<byte>, at: nat, q: Request)
    ensures SplitTarget(target, at, q).path == SplitTarget(target, at, BLANK).path
  {
  }

  lemma VersionFails(b: seq<byte>, token: seq<byte>, target: seq<byte>, version: seq<byte>, rest: seq<byte>)
    requires VersionUnknown(b, token, target, version, rest)
    ensures Parse(b).Fail? && Parse(b).status == 505
  {
    hide MethodOf, VersionOf, Find, AllPrint, AttemptedTraversal, SplitTarget, Ascii, StageVersionLf;
    VersionsByName([]);
    var e1 := |token|;
    var e2 := e1 + 1 + |target|;
    var e3 := e2 + 6 + |version|;
    VersionIsCut(b, token, target, version, rest);
    var q1 := BLANK.(verb := MethodOf(token).value);
    PathDoesNotDepend(target, e1 + 1, q1);
    var q2 := SplitTarget(target, e1 + 1, q1);
    assert StageVersion(b, e2 + 1, e2 + 1, q2) == Fail(HTTP_505_VERSION_NOT_SUPPORTED, q2);
    hide StageVersion;
    assert StagePath(b, e1 + 1, e1 + 1, q1) == StageVersion(b, e2 + 1, e2 + 1, q2);
  }

  lemma VersionIsCut(b: seq<byte>, token: seq<byte>, target: seq<byte>, version: seq<byte>, rest: seq<byte>)
    requires b == token + [SP] + target + [SP] + HTTP_SLASH + version + [CR] + rest
    requires SP !in target && CR !in version && MethodOf(token).Some?
    ensures var e1 := |token|;
            var e2 := e1 + 1 + |target|;
            var e3 := e2 + 6 + |version|;
            && e3 < |b| && Find(b, SP, 0) == e1 && b[0..e1] == token
            && Find(b, SP, e1 + 1) == e2 && b[e1 + 1..e2] == target
            && Find(b, CR, e2 + 1) == e3 && b[e2 + 1..e3] == HTTP_SLASH + version && b[e2 + 6..e3] == version
  {
    hide MethodOf, Find;
    var full := HTTP_SLASH + version;
    Regroup(token, [SP], target, HTTP_SLASH, version, [CR], rest);
    TokensHaveNoSpace(token);
    FullHasNoCr(version);
    CutInThree(b, token, target, full, rest, target + [SP] + (full + [CR] + rest), full + [CR] + rest);
    TailOfPart(b, |token| + 2 + |target|, full, 5);
    assert full[5..] == version;
  }

  lemma CutInThree(b: seq<byte>, token: seq<byte>, target: seq<byte>, full: seq<byte>, rest: seq<byte>,
                   rest1: seq<byte>, rest2: seq<byte>)
    requires b == token + [SP] + rest1 && target + [SP] + rest2 == rest1 && full + [CR] + rest == rest2
    requires SP !in token && SP !in target && CR !in full
    ensures var e1 := |token|;
            var e2 := e1 + 1 + |target|;
            var e3 := e2 + 1 + |full|;
            && e3 < |b| && Find(b, SP, 0) == e1 && b[0..e1] == token
            && Find(b, SP, e1 + 1) == e2 && b[e1 + 1..e2] == target
            && Find(b, CR, e2 + 1) == e3 && b[e2 + 1..e3] == full
  {
    hide Find;
    FirstCut(b, token, SP, rest1);
    CutInTwo(b, |token| + 1, target, full, rest, rest1, rest2);
  }

  lemma CutInTwo(b: seq<byte>, p: nat, target: seq<byte>, full: seq<byte>, rest: seq<byte>, rest1: seq<byte>, rest2: seq<byte>)
    requires p <= |b| && rest1 <= b[p..] && target + [SP] + rest2 == rest1 && full + [CR] + rest == rest2
    requires SP !in target && CR !in full
    ensures var e2 := p + |target|;
            var e3 := e2 + 1 + |full|;
            && e3 < |b| && Find(b, SP, p) == e2 && b[p..e2] == target
            && Find(b, CR, e2 + 1) == e3 && b[e2 + 1..e3] == full
  {
    hide Find;
    CutOne(b, p, target, SP, rest2);
    CutOne(b, p + |target| + 1, full, CR, rest);
  }

  lemma FromTheStart(b: seq<byte>)
    ensures b[0..] == b
  {
  }

  lemma FirstCut(b: seq<byte>, part: seq<byte>, c: byte, rest: seq<byte>)
    requires b == part + [c] + rest && c !in part
    ensures |part| < |b| && Find(b, c, 0) == |part| && b[0..|part|] == part && b[|part| + 1..] == rest
  {
    assert forall k :: 0 <= k < |part| ==> b[k] == part[k];
    FindIs(b, c, 0, |part|);
  }

  lemma CutOne(b: seq<byte>, p: nat, part: seq<byte>, c: byte, rest: seq<byte>)
    requires p <= |b| && part + [c] + rest <= b[p..] && c !in part
    ensures var e := p + |part|;
            e + |rest| < |b| && Find(b, c, p) == e && b[p..e] == part && rest <= b[e + 1..]
  {
    hide Find;
    PartOf(b, p, part, c, rest);
    FindInPrint(b, p, part, c);
  }

  lemma Regroup(a: seq<byte>, s: seq<byte>, b: seq<byte>, h: seq<byte>, c: seq<byte>, e: seq<byte>, d: seq<byte>)
    ensures a + s + b + s + h + c + e + d == a + s + (b + s + ((h + c) + e + d))
  {
    assert a + s + b + s + h + c + e + d == (a + s) + (b + s) + ((h + c) + e + d);
  }

  lemma TailOfPart(b: seq<byte>, p: nat, part: seq<byte>, k: nat)
    requires p + |part| <= |b| && b[p..p + |part|] == part && k <= |part|
    ensures b[p + k..p + |part|] == part[k..]
  {
  }

  lemma FullHasNoCr(version: seq<byte>)
    requires CR !in version
    ensures CR !in HTTP_SLASH + version
  {
  }

  /** 431 is for 4096 bytes that do not decide the request. */
  lemma BufferFullIff(b: seq<byte>)
    ensures (Receive(b).Fail? && Receive(b).status == 431) <==> |b| >= 4096 && Parse(b[..4096]).More?
    ensures Receive(b) != Parse(Buffered(b)) ==> Receive(b).Fail? && Receive(b).status == 431
    ensures Buffered(b) == if |b| < 4096 then b else b[..4096]
  {
    hide Parse;
    FailuresAreErrors(Buffered(b));
  }
}
