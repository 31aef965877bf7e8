/** Redirects and authentication retries of the HTTP client: `send`, `send_` with
    `handle_request`, and `redirect` call each other. The server is an arbitrary function of
    the requests sent so far and the request, so everything below holds against any server. */
module Redirects {
  import opened Wrappers

  /** `redirects` may still be followed; `auths` credentials have been sent. */
  datatype Request = Request(verb: string, path: string, body: string, redirects: nat, auths: nat)

  /** What comes back: an error, or a status with a usable redirect target and a readable
      digest challenge, if any. `reused` offers that a connection which is still open is alive
      and is used again; only making a new one clears the error variable. */
  datatype Reply =
    | Failed(peerClosed: bool)
    | Answer(status: int, target: Option<string>, challenge: bool, reused: bool := false)

  type Server = (seq<Request>, Request) -> Reply

  /** `follow_location_`, and digest credentials for servers and for proxies. */
  datatype Client = Client(follow: bool, digest: bool, proxyDigest: bool)

  const MAX_REDIRECTS: nat := 20
  const MAX_AUTHS: nat := 5

  /** Result of a call: success, whether the error variable asks for a second attempt, the request as the
      callee left it, the answer, all requests on the wire so far, and how deep sends were nested. */
  datatype Out = Out(ret: bool, peerClosed: bool, req: Request, res: Reply, log: seq<Request>, depth: nat)

  function Max(a: nat, b: nat): nat { if a >= b then a else b }

  /** What every nested send uses up. */
  function Budget(req: Request): nat {
    req.redirects + if req.auths < MAX_AUTHS then MAX_AUTHS - req.auths else 0
  }

  /** Requests on the wire for one `send`, at most. */
  function Wire(b: nat): nat {
    if b == 0 then 2 else 2 + 4 * Wire(b - 1)
  }

  /** What a redirect or a retry may make of a request: it keeps method and body, or has become
      a GET without a body; redirects are used up and credentials added. */
  predicate Derived(req: Request, r: Request) {
    && ((r.verb == req.verb && r.body == req.body) || (r.verb == "GET" && r.body == ""))
    && r.redirects <= req.redirects && r.auths >= req.auths
  }

  predicate AllDerived(req: Request, log: seq<Request>, from: nat) {
    forall k :: from <= k < |log| ==> Derived(req, log[k])
  }

  /** What every one of the calls promises its caller, against any server; `log` is the wire
      before the call. */
  predicate Bounded(req: Request, log: seq<Request>, o: Out, wire: nat) {
    && o.req.auths == req.auths && Derived(req, o.req)
    && (o.ret ==> !o.peerClosed && o.res.Answer?)
    && o.depth <= Budget(req)
    && log <= o.log && |o.log| <= |log| + wire && AllDerived(req, o.log, |log|)
  }

  lemma DerivedOnward(req: Request, next: Request, log: seq<Request>, from: nat)
    requires Derived(req, next) && AllDerived(next, log, from)
    ensures AllDerived(req, log, from)
  {}

  lemma DerivedJoined(req: Request, log: seq<Request>, mid: seq<Request>, end: seq<Request>)
    requires log <= mid <= end && AllDerived(req, mid, |log|) && AllDerived(req, end, |mid|)
    ensures log <= end && AllDerived(req, end, |log|)
  {}

  /** The answer to the last request on the wire. */
  function LastReply(server: Server, log: seq<Request>): Reply
    requires log != []
  {
    server(log[..|log| - 1], log[|log| - 1])
  }

  lemma LastSent(server: Server, log: seq<Request>, req: Request)
    ensures LastReply(server, log + [req]) == server(log, req)
  {
    assert (log + [req])[..|log|] == log;
  }

  /** What the calls report is what the server has said last: a success comes with the answer to
      the last request, and the error variable asks for another attempt exactly if the
      connection was closed instead of an answer. Without a path nothing is sent. */
  predicate Truthful(server: Server, req: Request, log: seq<Request>, o: Out) {
    if req.path == "" then !o.ret && !o.peerClosed && o.log == log
    else
      && o.req.path != "" && o.log != []
      && (o.ret ==> o.res == LastReply(server, o.log))
      && (o.peerClosed <==> LastReply(server, o.log) == Failed(true))
  }

  /** `send`: a second attempt if the peer had closed the connection. The first attempt may
      have replaced the request by the one a redirect ended at. `err` is the error variable and
      `open` the socket on entry; an attempt that fails leaves the socket closed, so the second
      one has to connect. That a set error means failure, the assertion of `send`, is the third
      clause of `Bounded`. */
  function Send(c: Client, server: Server, req: Request, log: seq<Request>, err: bool := false,
                open: bool := true): (o: Out)
    requires !(err && open)
    ensures Bounded(req, log, o, Wire(Budget(req)))
    ensures Truthful(server, req, log, o)
    ensures req.path != "" ==> |o.log| > |log| && o.log[|log|] == req
    decreases Budget(req), 5
  {
    var first := Attempt(c, server, req, log, err, open);
    if first.peerClosed then
      var second := Again(c, server, req, first);
      DerivedJoined(req, log, first.log, second.log);
      second
    else first
  }

  /** The second attempt. */
  function Again(c: Client, server: Server, req: Request, first: Out): (o: Out)
    requires first.req.auths == req.auths && Derived(req, first.req)
    requires first.peerClosed && first.depth <= Budget(req) && first.req.path != ""
    ensures Bounded(req, first.log, o, 1 + Nested(Budget(req)))
    ensures Truthful(server, first.req, first.log, o)
    ensures |o.log| > |first.log| && o.log[|first.log|] == first.req
    decreases Budget(req), 4
  {
    var second := Attempt(c, server, first.req, first.log, first.peerClosed, false);
    WireMonotone(Budget(first.req), Budget(req));
    DerivedOnward(req, first.req, second.log, |first.log|);
    second.(depth := Max(first.depth, second.depth))
  }

  /** Requests sent by the sends nested in one attempt: one for the redirect, one for the
      retry with credentials. */
  function Nested(b: nat): nat { if b == 0 then 0 else 2 * Wire(b - 1) }

  /** `send_` and `handle_request`: the exchange, then the redirect, then the retry with
      credentials, which looks at the request and the answer the redirect has left. */
  function Attempt(c: Client, server: Server, req: Request, log: seq<Request>, err: bool := false,
                   open: bool := true): (o: Out)
    requires !(err && open)
    ensures Bounded(req, log, o, 1 + Nested(Budget(req)))
    ensures Truthful(server, req, log, o)
    ensures req.path != "" ==> |o.log| > |log| && o.log[|log|] == req
    decreases Budget(req), 3
  {
    var res := server(log, req);
    var sent := log + [req];
    LastSent(server, log, req);
    if req.path == "" then Out(false, false, req, res, log, 0)
    else match res
      case Failed(peerClosed) => Out(false, peerClosed, req, res, sent, 0)
      case Answer(status, _, _, reused) =>
        var left := if open && reused then err else false;
        var o := Followed(c, server, req, res, sent, left);
        var end := Authorize(c, server, req, o);
        AttemptJoined(req, log, o, end);
        end
  }

  /** The redirect, if there is one that is to be followed. */
  function Followed(c: Client, server: Server, req: Request, res: Reply, sent: seq<Request>, left: bool): (o: Out)
    requires res.Answer? && !left && req.path != ""
    requires sent != [] && LastReply(server, sent) == res
    ensures Truthful(server, req, sent, o)
    ensures Bounded(req, sent, o, if req.redirects == 0 then 0 else Wire(Budget(req) - 1))
    ensures o.peerClosed ==> 300 < res.status < 400 && o.res == res
    ensures if 300 < res.status < 400 && c.follow then
        if o.ret then o.req.redirects < req.redirects else o.req == req && o.res == res
      else o == Out(true, false, req, res, sent, 0)
    ensures 300 < res.status < 400 && c.follow ==>
      if req.redirects > 0 && res.target.Some? && res.target.value != "" then
        |o.log| > |sent| && o.log[|sent|] == Onward(req, res.status, res.target.value)
      else !o.ret && !o.peerClosed && o.log == sent
    decreases Budget(req), 2
  {
    if 300 < res.status < 400 && c.follow then Redirect(c, server, req, res, sent, left)
    else Out(true, left, req, res, sent, 0)
  }

  lemma AttemptJoined(req: Request, log: seq<Request>, o: Out, end: Out)
    requires Bounded(req, log + [req], o, if req.redirects == 0 then 0 else Wire(Budget(req) - 1))
    requires Bounded(req, o.log, end, if req.auths < MAX_AUTHS then Wire(Budget(req) - 1) else 0)
    ensures Bounded(req, log, end, 1 + Nested(Budget(req)))
    ensures |end.log| > |log| && end.log[|log|] == req
  {
    assert Derived(req, req);
    hide Derived, Wire;
    var sent := log + [req];
    DerivedJoined(req, log, sent, o.log);
    DerivedJoined(req, log, o.log, end.log);
    assert end.log[|log|] == o.log[|log|] == sent[|log|];
  }

  /** The request a redirect asks for: a GET without a body after a 303 to another method. */
  function Onward(req: Request, status: int, target: string): Request
    requires req.redirects > 0
  {
    if status == 303 && req.verb !in {"GET", "HEAD"} then Request("GET", target, "", req.redirects - 1, req.auths)
    else Request(req.verb, target, req.body, req.redirects - 1, req.auths)
  }

  /** `ClientImpl::redirect` and `detail::redirect`; a redirect to another host uses a new
      client with the same settings. The first request it puts on the wire goes to the target
      with one redirect less, and is a GET without a body after a 303 to another method. */
  function Redirect(c: Client, server: Server, req: Request, res: Reply, log: seq<Request>,
                    err: bool := false): (o: Out)
    requires res.Answer? && !err && req.path != ""
    requires log != [] && LastReply(server, log) == res
    ensures Truthful(server, req, log, o)
    ensures Bounded(req, log, o, if req.redirects == 0 then 0 else Wire(Budget(req) - 1))
    ensures if o.ret then o.req.redirects < req.redirects else o.req == req && o.res == res
    ensures if req.redirects > 0 && res.target.Some? && res.target.value != "" then
        |o.log| > |log| && o.log[|log|] == Onward(req, res.status, res.target.value)
      else !o.ret && !o.peerClosed && o.log == log
    decreases Budget(req), 1
  {
    if req.redirects == 0 || res.target == None then Out(false, err, req, res, log, 0)
    else
      var next := req.(path := res.target.value, redirects := req.redirects - 1);
      var newReq := if res.status == 303 && req.verb != "GET" && req.verb != "HEAD"
                    then next.(verb := "GET", body := "") else next;
      var o := Send(c, server, newReq, log, err);
      RedirectBounded(req, newReq, log, o);
      if o.ret then o.(depth := o.depth + 1)
      else o.(req := req, res := res, depth := o.depth + 1)
  }

  lemma RedirectBounded(req: Request, next: Request, log: seq<Request>, o: Out)
    requires Derived(req, next) && next.auths == req.auths && next.redirects == req.redirects - 1
    requires Bounded(next, log, o, Wire(Budget(next)))
    ensures Budget(next) == Budget(req) - 1
    ensures Bounded(req, log, o.(depth := o.depth + 1), Wire(Budget(req) - 1))
  {
    DerivedOnward(req, next, o.log, |log|);
  }

  /** Digest credentials are configured for the party that asked for them. */
  predicate HasCredentials(c: Client, status: int) {
    (status == 401 && c.digest) || (status == 407 && c.proxyDigest)
  }

  /** The answer asks for credentials, there are some, and an attempt with them is left. */
  predicate Retries(c: Client, before: Out)
    requires before.res.Answer?
  {
    HasCredentials(c, before.res.status) && before.req.auths < MAX_AUTHS && before.res.challenge
  }

  /** The authentication part of `handle_request`: the retry is the request left by the redirect,
      if there was one, with one more credential. */
  function Authorize(c: Client, server: Server, req: Request, before: Out): (o: Out)
    requires before.res.Answer? && before.req.auths == req.auths && Derived(req, before.req)
    requires before.peerClosed ==> !before.ret && 300 < before.res.status < 400
    requires before.depth <= Budget(req) && req.path != "" && Truthful(server, req, before.log, before)
    ensures Truthful(server, req, before.log, o)
    ensures Bounded(req, before.log, o, if req.auths < MAX_AUTHS then Wire(Budget(req) - 1) else 0)
    ensures o.req == before.req
    ensures if Retries(c, before) then
        |o.log| > |before.log| && (o.ret || o.res == before.res) && o.log[|before.log|] == before.req.(auths := before.req.auths + 1)
      else o == before
    decreases Budget(req), 0
  {
    if Retries(c, before) then
      var newReq := before.req.(auths := before.req.auths + 1);
      WireMonotone(Budget(newReq), Budget(req) - 1);
      var o := Send(c, server, newReq, before.log, before.peerClosed);
      DerivedOnward(req, newReq, o.log, |before.log|);
      Out(o.ret, o.peerClosed, before.req, if o.ret then o.res else before.res, o.log,
          Max(before.depth, o.depth + 1))
    else before
  }

  /** A larger budget allows more requests. */
  lemma {:induction false} WireMonotone(a: nat, b: nat)
    requires a <= b
    ensures Wire(a) <= Wire(b) && Nested(a) <= Nested(b)
    decreases b
  {
    if a > 0 { WireMonotone(a - 1, b - 1); }
    else if b > 0 { WireMonotone(a, b - 1); }
  }

  /** When a second request is sent and which one, and what happens otherwise, against any
      server: after a closed connection the same request; after a redirect that is to be and can
      be followed the target's; after a challenge that can be answered the same request with one
      more credential. Otherwise that one request is all, and it is a success exactly if there
      was an answer and no redirect that had to be followed. */
  lemma SecondRequest(c: Client, server: Server, req: Request, log: seq<Request>)
    requires req.path != ""
    ensures var (o, sent) := (Send(c, server, req, log), log + [req]);
      match server(log, req)
      case Failed(closed) =>
        if closed then sent + [req] <= o.log else o.log == sent && !o.ret
      case Answer(status, target, challenge, _) =>
        if 300 < status < 400 && c.follow then
          if req.redirects > 0 && target.Some? && target.value != "" then
            sent + [Onward(req, status, target.value)] <= o.log
          else o.log == sent && !o.ret
        else if challenge && req.auths < 5 && ((status == 401 && c.digest) || (status == 407 && c.proxyDigest)) then
          sent + [req.(auths := req.auths + 1)] <= o.log
        else o.log == sent && o.ret && o.res == server(log, req) && o.req == req
  {
    hide AllDerived, Wire, Nested, Truthful;
    var o := Send(c, server, req, log);
  }

  /** Against any server: sends started from a request that has used none of its allowance
      nest at most 25 deep below it; the request handed back has its authentication attempts
      left; and every request on the wire has the method and body of the first one, or is a
      GET without a body. */
  lemma DepthIsBounded(c: Client, server: Server, req: Request)
    requires req.redirects == MAX_REDIRECTS && req.auths == 0
    ensures var o := Send(c, server, req, []);
      && o.depth <= 25 && o.req.auths == 0 && o.req.redirects <= MAX_REDIRECTS
      && |o.log| <= Wire(25)
      && forall r <- o.log :: (r.verb == req.verb && r.body == req.body) || (r.verb == "GET" && r.body == "")
  {
    var o := Send(c, server, req, []);
    forall r <- o.log ensures Derived(req, r) {
      var k :| 0 <= k < |o.log| && o.log[k] == r;
    }
  }

  /** A server that redirects as long as it is followed and then asks for credentials. */
  function Exhausting(): Server {
    (log: seq<Request>, r: Request) =>
      if r.redirects > 0 then Answer(302, Some("/"), false) else Answer(401, None, true)
  }

  /** The bound is reached: this server makes the client nest exactly `Budget` sends. */
  lemma {:induction false} DepthIsReached(c: Client, req: Request, log: seq<Request>)
    requires c.follow && c.digest && req.path != ""
    ensures var o := Send(c, Exhausting(), req, log);
      && o.ret && o.res == Answer(401, None, true)
      && o.depth == Budget(req)
      && o.req.redirects == 0 && o.req.path != "" && o.req.auths == req.auths
    decreases Budget(req)
  {
    hide AllDerived, Wire, Nested, LastReply;
    var sent := log + [req];
    LastSent(Exhausting(), log, req);
    if req.redirects > 0 {
      DepthIsReached(c, req.(path := "/", redirects := req.redirects - 1), sent);
    }
    var before := if req.redirects > 0 then Redirect(c, Exhausting(), req, Answer(302, Some("/"), false), sent)
                  else Out(true, false, req, Answer(401, None, true), sent, 0);
    assert before.ret && before.res == Answer(401, None, true) && before.req.redirects == 0;
    assert before.depth == if req.redirects > 0 then Budget(req) else 0;
    if req.auths < MAX_AUTHS {
      DepthIsReached(c, before.req.(auths := req.auths + 1), before.log);
    }
    assert Attempt(c, Exhausting(), req, log) == Authorize(c, Exhausting(), req, before);
    var o := Authorize(c, Exhausting(), req, before);
    assert o.depth == Budget(req) && o.ret && !o.peerClosed;
  }

  /** A server that never stops redirecting gets the first request and one more for every
      redirect the request allows; then the client gives up. */
  lemma {:induction false} EndlessRedirects(c: Client, server: Server, req: Request, log: seq<Request>)
    requires c.follow && req.path != ""
    requires forall l, r :: server(l, r) == Answer(302, Some("/"), false)
    ensures var o := Send(c, server, req, log);
      !o.ret && !o.peerClosed && |o.log| == |log| + 1 + req.redirects && o.depth == req.redirects
    decreases req.redirects
  {
    hide AllDerived, Wire, Nested, Truthful;
    var sent := log + [req];
    if req.redirects > 0 {
      EndlessRedirects(c, server, req.(path := "/", redirects := req.redirects - 1), sent);
    }
    var res := server(log, req);
    var o := Redirect(c, server, req, res, sent);
    assert !o.ret && !o.peerClosed && o.res == res;
    assert Attempt(c, server, req, log) == o;
  }
}
