/** The reader that caps a proxied response body of unknown length. Under it sits
    a LimitReader over the upstream body, which may deliver in any chunks, end
    when it likes after its last byte, or fail. */
module CappedReader {
  import Text
  import opened Int64

  type Byte = Text.Byte

  datatype Err = Nil | EOF | UpstreamFault | BodyTooLarge

  /** What the upstream is inclined to do on one call: how much to hand over, whether to
      report the end together with the last byte, whether to fail. */
  datatype Mood = Mood(chunk: nat, endsEarly: bool, faults: bool)

  /** One Read of the caller. */
  datatype Request = Request(len: nat, mood: Mood)

  datatype Reply = Reply(n: nat, err: Err)

  function Least(a: int, b: int): int {
    if a < b then a else b
  }

  /** io.Reader's contract for the upstream body. */
  function UpstreamReply(body: seq<Byte>, pos: nat, len: nat, mood: Mood): (r: Reply)
    requires pos <= |body|
    ensures r.n <= len && pos + r.n <= |body|
    ensures r.err == EOF ==> pos + r.n == |body|
    ensures r.err != BodyTooLarge
  {
    var n := Least(mood.chunk, Least(len, |body| - pos));
    Reply(n, if mood.faults then UpstreamFault
             else if pos + n == |body| && (n == 0 || mood.endsEarly) then EOF
             else Nil)
  }

  // ---------------------------------------------------------------- one read, on values

  datatype State = State(pos: nat, left: int, read: int, overflow: bool)

  /** The limit given to the LimitReader, an int64 sum: negative for the largest cap. */
  function Limit(max: int): int {
    Wrap64(max + 1)
  }

  function Fresh(max: int): State {
    State(0, Limit(max), 0, false)
  }

  /** The caps that the configuration lets through, and zero. */
  predicate CapOk(max: int) {
    0 <= max <= INT64_MAX
  }

  predicate Valid(body: seq<Byte>, max: int, s: State) {
    && CapOk(max)
    && s.pos <= |body| && s.left == Limit(max) - s.pos
    && (s.overflow ==> s.pos == max + 1 && s.read == max)
    && (!s.overflow ==> s.pos == s.read <= max)
    && (max == INT64_MAX ==> s.pos == 0)
  }

  /** io.LimitReader: nothing after `left` bytes, and never more than `left` at once. */
  function LimitedReply(body: seq<Byte>, s: State, req: Request): (r: Reply)
    requires s.pos <= |body|
    ensures r.n <= req.len && s.pos + r.n <= |body|
  {
    if s.left <= 0 then Reply(0, EOF) else UpstreamReply(body, s.pos, Least(req.len, s.left), req.mood)
  }

  function ReadReply(body: seq<Byte>, max: int, s: State, req: Request): Reply
    requires Valid(body, max, s)
  {
    if s.overflow then Reply(0, BodyTooLarge)
    else
      var r := LimitedReply(body, s, req);
      if s.read + r.n > max then
        (if max > s.read then Reply(max - s.read, Nil) else Reply(0, BodyTooLarge))
      else r
  }

  function ReadState(body: seq<Byte>, max: int, s: State, req: Request): (s': State)
    requires Valid(body, max, s)
    ensures Valid(body, max, s')
  {
    if s.overflow then s
    else
      var n := LimitedReply(body, s, req).n;
      if s.read + n > max then State(s.pos + n, s.left - n, max, true)
      else State(s.pos + n, s.left - n, s.read + n, false)
  }

  // ---------------------------------------------------------------- any run of reads

  function StateAfter(body: seq<Byte>, max: int, reqs: seq<Request>): (s: State)
    requires CapOk(max)
    ensures Valid(body, max, s)
  {
    if reqs == [] then Fresh(max)
    else ReadState(body, max, StateAfter(body, max, reqs[..|reqs| - 1]), reqs[|reqs| - 1])
  }

  /** The replies to a run of reads. */
  function Replies(body: seq<Byte>, max: int, reqs: seq<Request>): (rs: seq<Reply>)
    requires CapOk(max)
    ensures |rs| == |reqs|
  {
    if reqs == [] then []
    else
      var n := |reqs| - 1;
      Replies(body, max, reqs[..n]) + [ReadReply(body, max, StateAfter(body, max, reqs[..n]), reqs[n])]
  }

  /** The replies of the bare upstream to the same run. */
  function BareReplies(body: seq<Byte>, reqs: seq<Request>): (rs: seq<Reply>)
    ensures |rs| == |reqs| && Total(rs) <= |body|
  {
    if reqs == [] then []
    else
      var n := |reqs| - 1;
      var before := BareReplies(body, reqs[..n]);
      var r := UpstreamReply(body, Total(before), reqs[n].len, reqs[n].mood);
      assert (before + [r])[..n] == before;
      before + [r]
  }

  function Total(rs: seq<Reply>): nat {
    if rs == [] then 0 else Total(rs[..|rs| - 1]) + rs[|rs| - 1].n
  }

  /** A read hands the caller the next bytes of the body and never passes the cap. */
  lemma ReadAdvances(body: seq<Byte>, max: int, s: State, req: Request)
    requires Valid(body, max, s)
    ensures ReadState(body, max, s, req).read == s.read + ReadReply(body, max, s, req).n
    ensures ReadReply(body, max, s, req).n <= req.len
    ensures ReadReply(body, max, s, req).err == EOF && max < INT64_MAX ==>
              !s.overflow && ReadState(body, max, s, req).read == |body| <= max
    ensures ReadReply(body, max, s, req).err == BodyTooLarge ==> |body| > max
  {
  }

  /** Over any run: what was delivered is as long as the count says and within the cap, at
      most one byte more was consumed, below the largest cap the end is reported only for a
      body delivered whole, and a too-large error only for a body over the cap. */
  lemma {:induction false} RunDelivers(body: seq<Byte>, max: int, reqs: seq<Request>)
    requires CapOk(max)
    ensures var s, rs := StateAfter(body, max, reqs), Replies(body, max, reqs);
            && s.read == Total(rs) <= max
            && s.pos <= max + 1
            && (max < INT64_MAX ==>
                  forall i :: 0 <= i < |rs| && rs[i].err == EOF ==> Total(rs[..i + 1]) == |body| <= max)
            && (forall i :: 0 <= i < |rs| && rs[i].err == BodyTooLarge ==> |body| > max)
  {
    hide ReadState, ReadReply;
    if reqs != [] {
      var n := |reqs| - 1;
      RunDelivers(body, max, reqs[..n]);
      ReadAdvances(body, max, StateAfter(body, max, reqs[..n]), reqs[n]);
      var rs := Replies(body, max, reqs);
      var before := Replies(body, max, reqs[..n]);
      assert rs[..n] == before && rs[..n + 1] == rs;
      forall i | 0 <= i < |rs| && rs[i].err == EOF && max < INT64_MAX
        ensures Total(rs[..i + 1]) == |body| <= max
      {
        if i < n {
          assert rs[..i + 1] == before[..i + 1];
        }
      }
    }
  }

  /** Within the cap the reader is transparent: every read gets the upstream's own reply,
      so the whole body arrives with its own end. The largest cap wraps the limit around,
      and every read then gets the end at once. */
  lemma {:induction false} WithinCapIsTransparent(body: seq<Byte>, max: int, reqs: seq<Request>)
    requires CapOk(max) && |body| <= max
    ensures max < INT64_MAX ==> Replies(body, max, reqs) == BareReplies(body, reqs)
    ensures max == INT64_MAX ==>
              forall i :: 0 <= i < |reqs| ==> Replies(body, max, reqs)[i] == Reply(0, EOF)
  {
    if reqs != [] {
      var n := |reqs| - 1;
      WithinCapIsTransparent(body, max, reqs[..n]);
      RunDelivers(body, max, reqs[..n]);
      if max < INT64_MAX {
        TransparentRead(body, max, StateAfter(body, max, reqs[..n]), reqs[n]);
      }
    }
  }

  /** Exactly the caps for which all bodies within them pass unchanged. */
  lemma {:induction false} TransparentCaps(max: int)
    requires 0 < max <= INT64_MAX
    ensures (forall body: seq<Byte>, reqs: seq<Request> :: |body| <= max ==>
               Replies(body, max, reqs) == BareReplies(body, reqs))
       <==> max < INT64_MAX
  {
    hide Replies, BareReplies;
    forall body: seq<Byte>, reqs: seq<Request> | |body| <= max && max < INT64_MAX
      ensures Replies(body, max, reqs) == BareReplies(body, reqs)
    {
      WithinCapIsTransparent(body, max, reqs);
    }
    if max == INT64_MAX {
      var body: seq<Byte>, reqs := [0], [Request(1, Mood(1, false, false))];
      WithinCapIsTransparent(body, max, reqs);
      OneBareRead(body, reqs[0]);
    }
  }

  lemma {:induction false} OneBareRead(body: seq<Byte>, req: Request)
    ensures BareReplies(body, [req]) == [UpstreamReply(body, 0, req.len, req.mood)]
  {
    assert [req][..0] == [];
    assert BareReplies(body, []) == [];
  }

  lemma TransparentRead(body: seq<Byte>, max: int, s: State, req: Request)
    requires Valid(body, max, s) && |body| <= max < INT64_MAX
    ensures ReadReply(body, max, s, req) == UpstreamReply(body, s.read, req.len, req.mood)
  {
  }

  /** Over the cap, once the byte after it has been read, every later read fails; and that
      is the only way past the cap. */
  lemma {:induction false} OverflowIsFinal(body: seq<Byte>, max: int, reqs: seq<Request>, i: int)
    requires CapOk(max) && 0 <= i < |reqs|
    requires StateAfter(body, max, reqs[..i]).pos > max
    ensures Replies(body, max, reqs)[i] == Reply(0, BodyTooLarge)
    ensures StateAfter(body, max, reqs).read == max && StateAfter(body, max, reqs).pos == max + 1
    decreases |reqs|
  {
    var n := |reqs| - 1;
    if i < n {
      assert reqs[..n][..i] == reqs[..i];
      OverflowIsFinal(body, max, reqs[..n], i);
    }
  }

  // ---------------------------------------------------------------- the objects

  class Upstream {
    const body: seq<Byte>
    var pos: nat

    constructor (body: seq<Byte>)
      ensures this.body == body && pos == 0
    {
      this.body := body;
      pos := 0;
    }

    /** Fills the first bytes of p[..len]. */
    method Read(p: array<Byte>, len: nat, mood: Mood) returns (r: Reply)
      requires pos <= |body| && len <= p.Length
      modifies this, p
      ensures r == UpstreamReply(body, old(pos), len, mood)
      ensures pos == old(pos) + r.n
      ensures p[..r.n] == body[old(pos)..old(pos) + r.n]
    {
      r := UpstreamReply(body, pos, len, mood);
      for i := 0 to r.n
        invariant pos == old(pos)
        invariant p[..i] == body[pos..pos + i]
      {
        p[i] := body[pos + i];
      }
      pos := pos + r.n;
    }
  }

  class MaxBytesReadCloser {
    const upstream: Upstream
    const max: int
    var left: int
    var read: int
    var overflow: bool
    /** Everything the caller has been given so far. */
    ghost var delivered: seq<Byte>

    ghost function Abstract(): State
      reads this, upstream
    {
      State(upstream.pos, left, read, overflow)
    }

    ghost predicate Ok()
      reads this, upstream
    {
      && Valid(upstream.body, max, Abstract())
      && read <= |upstream.body| && delivered == upstream.body[..read]
    }

    constructor (upstream: Upstream, max: int)
      requires 0 < max <= INT64_MAX && upstream.pos == 0
      ensures Ok() && this.upstream == upstream && this.max == max
      ensures Abstract() == Fresh(max) && delivered == []
    {
      this.upstream, this.max := upstream, max;
      left, read, overflow := Wrap64(max + 1), 0, false;
      delivered := [];
    }

    method Read(p: array<Byte>, mood: Mood) returns (r: Reply)
      requires Ok()
      modifies this, upstream, p
      ensures Ok()
      ensures r == ReadReply(upstream.body, max, old(Abstract()), Request(p.Length, mood))
      ensures Abstract() == ReadState(upstream.body, max, old(Abstract()), Request(p.Length, mood))
      ensures r.n <= p.Length && delivered == old(delivered) + p[..r.n]
      ensures delivered <= upstream.body && |delivered| <= max
    {
      if overflow {
        return Reply(0, BodyTooLarge);
      }
      var got := LimitedRead(p, mood);
      if got.n > 0 {
        var next := read + got.n;
        if next > max {
          var allowed := max - read;
          delivered := upstream.body[..max];
          read := max;
          overflow := true;
          if allowed > 0 {
            assert p[..allowed] == p[..got.n][..allowed];
            return Reply(allowed, Nil);
          }
          return Reply(0, BodyTooLarge);
        }
        delivered := upstream.body[..next];
        read := next;
      }
      return got;
    }

    /** io.LimitReader's Read. */
    method LimitedRead(p: array<Byte>, mood: Mood) returns (r: Reply)
      requires upstream.pos <= |upstream.body|
      modifies this`left, upstream, p
      ensures r == LimitedReply(upstream.body, old(Abstract()), Request(p.Length, mood))
      ensures upstream.pos == old(upstream.pos) + r.n && left == old(left) - r.n
      ensures p[..r.n] == upstream.body[old(upstream.pos)..old(upstream.pos) + r.n]
    {
      if left <= 0 {
        return Reply(0, EOF);
      }
      var len := p.Length;
      if len > left {
        len := left;
      }
      r := upstream.Read(p, len, mood);
      left := left - r.n;
    }
  }

  // ---------------------------------------------------------------- the proxy's size policy

  datatype Policy = Refuse | Cap | Pass

  /** ModifyResponse on the response's Content-Length, -1 when unknown. */
  function SizePolicy(ext: string, max: int, contentLength: int): Policy {
    if !(ext in {".ts", ".m4s", ".mp4"} && max > 0) then Pass
    else if contentLength > max then Refuse
    else if contentLength < 0 then Cap
    else Pass
  }

  /** The policy in full: only segments, only with a positive cap, are refused for a length
      over it or capped for want of a length. */
  lemma SizePolicyMeans(ext: string, max: int, contentLength: int)
    ensures var policy, guarded := SizePolicy(ext, max, contentLength), ext in {".ts", ".m4s", ".mp4"} && max > 0;
            && (policy == Refuse <==> guarded && contentLength > max)
            && (policy == Cap <==> guarded && contentLength < 0)
            && (policy == Pass <==> !guarded || 0 <= contentLength <= max)
  {
  }

  /** What the client can get of a body under a policy. */
  function PassedOn(policy: Policy, body: seq<Byte>, max: int, reqs: seq<Request>): nat
    requires policy == Cap ==> CapOk(max)
  {
    match policy
    case Refuse => 0
    case Cap => StateAfter(body, max, reqs).read
    case Pass => |body|
  }

  /** No segment response gets past the cap, announced or not, and none is refused unless
      it announces more; a transport that keeps to a known Content-Length is assumed. */
  lemma {:induction false} SegmentsStayWithinCap(ext: string, max: int, contentLength: int, body: seq<Byte>,
                                                 reqs: seq<Request>)
    requires ext in {".ts", ".m4s", ".mp4"} && 0 < max <= INT64_MAX
    requires contentLength >= 0 ==> |body| <= contentLength
    ensures PassedOn(SizePolicy(ext, max, contentLength), body, max, reqs) <= max
    ensures SizePolicy(ext, max, contentLength) == Refuse <==> contentLength > max
  {
    RunDelivers(body, max, reqs);
  }
}
