/** The separator-joined texts that are signed or hashed. The cryptographic
    functions are left out: what matters for them is that different contents
    never give the same text. */
module SignedText {
  import opened Wrappers
  import opened Text
  import opened Timestamps
  import AssetPaths

  // ---------------------------------------------------------------- announcements

  /** The fields of an announcement that its signature covers. */
  datatype Announcement = Announcement(providerId: string, assetId: string, transport: string, baseUrl: string,
                                       expiresAt: int, nonce: seq<Byte>)

  function SignatureMessage(a: Announcement): string {
    a.providerId + ['|'] + (a.assetId + ['|'] + (a.transport + ['|'] +
      (a.baseUrl + ['|'] + IntText(a.expiresAt) + ['|'] + HexText(a.nonce))))
  }

  /** The ids and the transport contain no separator; the base URL may. */
  predicate Separable(a: Announcement) {
    '|' !in a.providerId && '|' !in a.assetId && '|' !in a.transport
  }

  lemma {:induction false} HexIsPlain(bytes: seq<Byte>)
    ensures '|' !in HexText(bytes) && '\n' !in HexText(bytes)
  {
    hide HexText;
  }

  lemma {:induction false} HexInjective(a: seq<Byte>, b: seq<Byte>)
    requires HexText(a) == HexText(b)
    ensures a == b
  {
    HexRoundTrip(a);
    HexRoundTrip(b);
  }

  /** The message read field by field: each text field in as many pieces as it has
      separators and one more, then the expiry and the nonce. */
  lemma {:induction false} MessageFields(a: Announcement)
    ensures Split(SignatureMessage(a), '|')
         == Split(a.providerId, '|') + Split(a.assetId, '|') + Split(a.transport, '|') + Split(a.baseUrl, '|')
            + [IntText(a.expiresAt), HexText(a.nonce)]
  {
    hide IntText, HexText, Split;
    var e, n := IntText(a.expiresAt), HexText(a.nonce);
    var u := a.baseUrl + ['|'] + e + ['|'] + n;
    HexIsPlain(a.nonce);
    SplitAppend(a.providerId, '|', a.assetId + ['|'] + (a.transport + ['|'] + u));
    SplitAppend(a.assetId, '|', a.transport + ['|'] + u);
    SplitAppend(a.transport, '|', u);
    SplitAppend(a.baseUrl + ['|'] + e, '|', n);
    SplitAppend(a.baseUrl, '|', e);
    SplitPlain(e, '|');
    SplitPlain(n, '|');
  }

  /** Equal messages are messages of equal announcements. */
  lemma {:induction false} MessageDeterminesAnnouncement(a: Announcement, b: Announcement)
    requires Separable(a) && Separable(b) && SignatureMessage(a) == SignatureMessage(b)
    ensures a == b
  {
    hide IntText, HexText;
    var ea, eb := IntText(a.expiresAt), IntText(b.expiresAt);
    var na, nb := HexText(a.nonce), HexText(b.nonce);
    var ua, ub := a.baseUrl + ['|'] + ea + ['|'] + na, b.baseUrl + ['|'] + eb + ['|'] + nb;
    var ta, tb := a.transport + ['|'] + ua, b.transport + ['|'] + ub;
    SplitFirst(a.providerId, b.providerId, '|', a.assetId + ['|'] + ta, b.assetId + ['|'] + tb);
    SplitFirst(a.assetId, b.assetId, '|', ta, tb);
    SplitFirst(a.transport, b.transport, '|', ua, ub);
    HexIsPlain(a.nonce);
    HexIsPlain(b.nonce);
    SplitLast(a.baseUrl + ['|'] + ea, b.baseUrl + ['|'] + eb, '|', na, nb);
    SplitLast(a.baseUrl, b.baseUrl, '|', ea, eb);
    HexInjective(a.nonce, b.nonce);
    IntTextInjective(a.expiresAt, b.expiresAt);
  }

  predicate HasSeparator(a: Announcement) {
    '|' in a.providerId || '|' in a.assetId || '|' in a.transport || '|' in a.baseUrl
  }

  /** Without separators, no other announcement has the message. */
  lemma {:induction false} PlainMessageIsUnique(a: Announcement, b: Announcement)
    requires !HasSeparator(a) && SignatureMessage(b) == SignatureMessage(a)
    ensures b == a
  {
    hide IntText, HexText, Split, SignatureMessage;
    MessageFields(a);
    MessageFields(b);
    SplitOnce(a.providerId, '|');
    SplitOnce(a.assetId, '|');
    SplitOnce(a.transport, '|');
    SplitOnce(a.baseUrl, '|');
    SplitOnce(b.providerId, '|');
    SplitOnce(b.assetId, '|');
    SplitOnce(b.transport, '|');
    SplitOnce(b.baseUrl, '|');
    var fields, fields' := Split(SignatureMessage(a), '|'), Split(SignatureMessage(b), '|');
    assert |fields| == 6 && |fields'| == 6;
    assert fields[0] == a.providerId && fields[1] == a.assetId && fields[2] == a.transport && fields[3] == a.baseUrl
        && fields[4] == IntText(a.expiresAt) && fields[5] == HexText(a.nonce);
    assert fields'[0] == b.providerId && fields'[1] == b.assetId && fields'[2] == b.transport && fields'[3] == b.baseUrl
        && fields'[4] == IntText(b.expiresAt) && fields'[5] == HexText(b.nonce);
    IntTextInjective(a.expiresAt, b.expiresAt);
    HexInjective(a.nonce, b.nonce);
  }

  /** A field with a separator shares it with its neighbour: the part on one side moves over. */
  function Slid(a: Announcement): Announcement {
    if '|' in a.providerId then
      var i := Find(a.providerId, '|');
      a.(providerId := a.providerId[..i], assetId := After(a.providerId, i) + ['|'] + a.assetId)
    else if '|' in a.assetId then
      var i := Find(a.assetId, '|');
      a.(providerId := a.providerId + ['|'] + a.assetId[..i], assetId := After(a.assetId, i))
    else if '|' in a.transport then
      var i := Find(a.transport, '|');
      a.(assetId := a.assetId + ['|'] + a.transport[..i], transport := After(a.transport, i))
    else
      var i := Find(a.baseUrl, '|');
      a.(transport := a.transport + ['|'] + a.baseUrl[..i], baseUrl := After(a.baseUrl, i))
  }

  function After(s: string, i: nat): string {
    if i < |s| then s[i + 1..] else ""
  }

  lemma {:induction false} SlidMessage(a: Announcement)
    requires HasSeparator(a)
    ensures Slid(a) != a && SignatureMessage(Slid(a)) == SignatureMessage(a)
  {
    hide IntText, HexText, Find;
    var b, r := Slid(a), IntText(a.expiresAt) + ['|'] + HexText(a.nonce);
    assert forall x: string :: x + ['|'] + IntText(a.expiresAt) + ['|'] + HexText(a.nonce) == x + ['|'] + r;
    var u := a.baseUrl + ['|'] + r;
    if '|' in a.providerId {
      AtSeparator(a.providerId, '|');
      Slide(b.providerId, After(a.providerId, Find(a.providerId, '|')), a.assetId, a.transport + ['|'] + u);
    } else if '|' in a.assetId {
      AtSeparator(a.assetId, '|');
      Slide(a.providerId, a.assetId[..Find(a.assetId, '|')], b.assetId, a.transport + ['|'] + u);
    } else if '|' in a.transport {
      AtSeparator(a.transport, '|');
      Slide(a.assetId, a.transport[..Find(a.transport, '|')], b.transport, u);
    } else {
      AtSeparator(a.baseUrl, '|');
      Slide(a.transport, a.baseUrl[..Find(a.baseUrl, '|')], b.baseUrl, r);
    }
  }

  lemma Slide(p: string, x: string, y: string, r: string)
    ensures p + ['|'] + ((x + ['|'] + y) + ['|'] + r) == (p + ['|'] + x) + ['|'] + (y + ['|'] + r)
  {
  }

  lemma {:induction false} AtSeparator(s: string, c: char)
    requires c in s
    ensures var i := Find(s, c); i < |s| && s == s[..i] + [c] + After(s, i)
  {
    var i := Find(s, c);
    assert s[..|s|] == s;
  }

  /** Exactly when a message does not tell its announcement: some field holds a separator. */
  lemma {:induction false} MessageIsShared(a: Announcement)
    ensures (exists b :: b != a && SignatureMessage(b) == SignatureMessage(a)) <==> HasSeparator(a)
  {
    hide SignatureMessage, HasSeparator, Slid;
    if HasSeparator(a) {
      SlidMessage(a);
    } else {
      forall b | SignatureMessage(b) == SignatureMessage(a)
        ensures b == a
      {
        PlainMessageIsUnique(a, b);
      }
    }
  }

  /** White space as strings.TrimSpace sees it, up to Latin-1. */
  predicate IsSpace(c: char) {
    9 <= c as int <= 13 || c as int in {32, 0x85, 0xA0}
  }

  /** The white space of the Latin-1 range, one by one. */
  lemma SpacesAre(c: char)
    ensures c as int < 256 ==>
              (IsSpace(c) <==> c in ['\t', '\n', 11 as char, 12 as char, '\r', ' ', 0x85 as char, 0xA0 as char])
  {
  }

  /** What strings.TrimSpace trims to nothing. */
  predicate Blank(s: string) {
    forall i :: 0 <= i < |s| ==> IsSpace(s[i])
  }

  /** The number of leading spaces. */
  function Lead(s: string): (i: nat)
    ensures i <= |s| && (i < |s| ==> !IsSpace(s[i]))
    ensures forall k :: 0 <= k < i ==> IsSpace(s[k])
  {
    if s == "" || !IsSpace(s[0]) then 0 else 1 + Lead(s[1..])
  }

  function TrimEnd(s: string): (r: string)
    ensures r <= s && (r == "" || !IsSpace(r[|r| - 1]))
    ensures forall k :: |r| <= k < |s| ==> IsSpace(s[k])
  {
    if s != "" && IsSpace(s[|s| - 1]) then TrimEnd(s[..|s| - 1]) else s
  }

  /** strings.TrimSpace: what is left between the spaces at both ends. */
  function TrimSpace(s: string): string {
    TrimEnd(s[Lead(s)..])
  }

  lemma {:induction false} TrimSpaceMeans(s: string)
    ensures var r, i := TrimSpace(s), Lead(s);
            && r <= s[i..] && (r != "" ==> !IsSpace(r[0]) && !IsSpace(r[|r| - 1]))
            && (forall k :: 0 <= k < i || i + |r| <= k < |s| ==> IsSpace(s[k]))
            && (r == "" <==> Blank(s))
  {
    hide IsSpace, Lead, TrimEnd;
    var r, i := TrimSpace(s), Lead(s);
    assert forall k :: i + |r| <= k < |s| ==> s[k] == s[i..][k - i];
  }

  /** strings.TrimRight with one character. */
  function TrimRight(s: string, c: char): (r: string)
    ensures r <= s && (r == "" || r[|r| - 1] != c)
    ensures forall i :: |r| <= i < |s| ==> s[i] == c
  {
    if s != "" && s[|s| - 1] == c then TrimRight(s[..|s| - 1], c) else s
  }

  /** BuildAnnouncement up to the signature; `nonce` is missing when the random source fails. */
  function BuildAnnouncement(publicBaseUrl: string, transport: string, expirySeconds: int, providerId: string,
                             assetId: string, now: int, nonce: Option<seq<Byte>>): Option<Announcement> {
    if Blank(publicBaseUrl) || Blank(assetId) || nonce.None? then None
    else Some(Announcement(providerId, assetId, transport, TrimRight(publicBaseUrl, '/') + "/assets/" + assetId,
                           ToUnix(now + expirySeconds * NS), nonce.value))
  }

  /** When a build succeeds, and what it puts where: every argument in its own field, and the
      signed message made of the arguments in their order. */
  lemma {:induction false} BuiltFields(publicBaseUrl: string, transport: string, expirySeconds: int, providerId: string,
                                       assetId: string, now: int, nonce: Option<seq<Byte>>)
    ensures var built := BuildAnnouncement(publicBaseUrl, transport, expirySeconds, providerId, assetId, now, nonce);
            && (built.Some? <==> !Blank(publicBaseUrl) && !Blank(assetId) && nonce.Some?)
            && (built.Some? ==>
                  var a, url := built.value, TrimRight(publicBaseUrl, '/') + "/assets/" + assetId;
                  var expiresAt := now / 1_000_000_000 + expirySeconds - 62_167_219_200;
                  && a == Announcement(providerId, assetId, transport, url, expiresAt, nonce.value)
                  && Split(SignatureMessage(a), '|')
                     == Split(providerId, '|') + Split(assetId, '|') + Split(transport, '|') + Split(url, '|')
                        + [IntText(expiresAt), HexText(nonce.value)])
  {
    hide SignatureMessage, TrimRight, Blank, Split, IntText, HexText;
    var built := BuildAnnouncement(publicBaseUrl, transport, expirySeconds, providerId, assetId, now, nonce);
    if built.Some? {
      MessageFields(built.value);
    }
  }

  /** What a message has before its expiry and nonce. */
  function Head(a: Announcement): string {
    a.providerId + ['|'] + a.assetId + ['|'] + a.transport + ['|'] + a.baseUrl
  }

  lemma {:induction false} HeadAndTail(a: Announcement)
    ensures SignatureMessage(a) == Head(a) + ['|'] + IntText(a.expiresAt) + ['|'] + HexText(a.nonce)
  {
    hide IntText, HexText;
  }

  /** Expiry and nonce can always be read off the end, whatever the other fields hold. */
  lemma {:induction false} MessageTail(a: Announcement, b: Announcement)
    requires SignatureMessage(a) == SignatureMessage(b)
    ensures Head(a) == Head(b) && a.expiresAt == b.expiresAt && a.nonce == b.nonce
  {
    hide IntText, HexText, Head, SignatureMessage;
    var ea, eb := IntText(a.expiresAt), IntText(b.expiresAt);
    var na, nb := HexText(a.nonce), HexText(b.nonce);
    HexIsPlain(a.nonce);
    HexIsPlain(b.nonce);
    HeadAndTail(a);
    HeadAndTail(b);
    SplitLast(Head(a) + ['|'] + ea, Head(b) + ['|'] + eb, '|', na, nb);
    SplitLast(Head(a), Head(b), '|', ea, eb);
    HexInjective(a.nonce, b.nonce);
    IntTextInjective(a.expiresAt, b.expiresAt);
  }

  /** A text that holds a part twice determines it. */
  lemma {:induction false} TwiceDetermines(p: string, q: string, a: string, b: string)
    requires p + a + q + a == p + b + q + b
    ensures a == b
  {
    var x, y := p + a + q + a, p + b + q + b;
    assert |x| == |y|;
    assert x[|p|..|p| + |a|] == a && y[|p|..|p| + |a|] == b;
  }

  /** Announcements that one provider builds under one configuration share a message only
      for the same asset, second and nonce. The asset id may hold anything: it stands in the
      message twice, once by itself and once at the end of the base URL. */
  lemma {:induction false} BuiltMessagesDiffer(publicBaseUrl: string, transport: string, expirySeconds: int,
                                               providerId: string, a: string, b: string, s: int, t: int,
                                               m: seq<Byte>, n: seq<Byte>)
    requires var x := BuildAnnouncement(publicBaseUrl, transport, expirySeconds, providerId, a, s, Some(m));
             var y := BuildAnnouncement(publicBaseUrl, transport, expirySeconds, providerId, b, t, Some(n));
             x.Some? && y.Some? && SignatureMessage(x.value) == SignatureMessage(y.value)
    ensures a == b && s / NS == t / NS && m == n
  {
    hide SignatureMessage, TrimRight, Head, Blank;
    var x := BuildAnnouncement(publicBaseUrl, transport, expirySeconds, providerId, a, s, Some(m)).value;
    var y := BuildAnnouncement(publicBaseUrl, transport, expirySeconds, providerId, b, t, Some(n)).value;
    MessageTail(x, y);
    var url := TrimRight(publicBaseUrl, '/') + "/assets/";
    var p, q := providerId + ['|'], ['|'] + transport + ['|'] + url;
    BuiltHead(x, url);
    BuiltHead(y, url);
    TwiceDetermines(p, q, a, b);
  }

  lemma {:induction false} BuiltHead(a: Announcement, url: string)
    requires a.baseUrl == url + a.assetId
    ensures Head(a) == (a.providerId + ['|']) + a.assetId + (['|'] + a.transport + ['|'] + url) + a.assetId
  {
  }

  // ---------------------------------------------------------------- origin requests

  /** The parts of an origin request that are signed. `query` is the raw query. */
  datatype OriginRequest = OriginRequest(verb: string, path: string, query: string, timestamp: int,
                                         nonce: seq<Byte>, providerId: string)

  function NormalPath(path: string): string {
    if path == "" then "/" else path
  }

  function PathWithQuery(path: string, query: string, includeQuery: bool): string {
    NormalPath(path) + (if includeQuery && query != "" then ['?'] + query else "")
  }

  function CanonicalText(r: OriginRequest, includeQuery: bool): string {
    r.verb + ['\n'] + (PathWithQuery(r.path, r.query, includeQuery) + ['\n'] +
      (IntText(r.timestamp) + ['\n'] + (HexText(r.nonce) + ['\n'] + r.providerId)))
  }

  datatype SignError = UnsupportedMethod | BadNonce

  /** signWithNonce up to the HMAC. */
  function TextToSign(r: OriginRequest, includeQuery: bool): Result<string, SignError> {
    if r.verb != "GET" && r.verb != "HEAD" then Failure(UnsupportedMethod)
    else if |r.nonce| != 16 then Failure(BadNonce)
    else Success(CanonicalText(r, includeQuery))
  }

  /** Which requests are signed, and why the others are not. */
  lemma SignableRequests(r: OriginRequest, includeQuery: bool)
    ensures TextToSign(r, includeQuery).Success? <==> r.verb in {"GET", "HEAD"} && |r.nonce| == 16
    ensures TextToSign(r, includeQuery) == Failure(UnsupportedMethod) <==> r.verb !in {"GET", "HEAD"}
  {
  }

  /** An escaped path has neither line breaks nor a raw question mark, a raw query no line break. */
  predicate Escaped(r: OriginRequest) {
    '\n' !in r.path && '?' !in r.path && '\n' !in r.query
  }

  lemma {:induction false} PathAndQueryInjective(p: string, q: string, p': string, q': string)
    requires '?' !in p && '?' !in p' && PathWithQuery(p, q, true) == PathWithQuery(p', q', true)
    ensures NormalPath(p) == NormalPath(p') && q == q'
  {
    QueryShows(p, q);
    QueryShows(p', q');
    if q != "" {
      assert PathWithQuery(p, q, true) == NormalPath(p) + ['?'] + q;
      assert PathWithQuery(p', q', true) == NormalPath(p') + ['?'] + q';
      SplitFirst(NormalPath(p), NormalPath(p'), '?', q, q');
    } else {
      assert PathWithQuery(p, q, true) == NormalPath(p);
      assert PathWithQuery(p', q', true) == NormalPath(p');
    }
  }

  lemma {:induction false} QueryShows(p: string, q: string)
    requires '?' !in p
    ensures '?' in PathWithQuery(p, q, true) <==> q != ""
  {
    if q != "" {
      assert PathWithQuery(p, q, true)[|NormalPath(p)|] == '?';
    }
  }

  /** The signed text read line by line. */
  lemma {:induction false} CanonicalLines(r: OriginRequest, includeQuery: bool)
    requires TextToSign(r, includeQuery).Success? && Escaped(r)
    ensures var path := if r.path == "" then "/" else r.path;
            Split(TextToSign(r, includeQuery).value, '\n')
            == [r.verb, if includeQuery && r.query != "" then path + "?" + r.query else path,
                IntText(r.timestamp), HexText(r.nonce)]
               + Split(r.providerId, '\n')
  {
    hide IntText, HexText, Split;
    var p, t, n := PathWithQuery(r.path, r.query, includeQuery), IntText(r.timestamp), HexText(r.nonce);
    var path := if r.path == "" then "/" else r.path;
    assert p == if includeQuery && r.query != "" then path + "?" + r.query else path;
    HexIsPlain(r.nonce);
    SplitAppend(r.verb, '\n', p + ['\n'] + (t + ['\n'] + (n + ['\n'] + r.providerId)));
    SplitAppend(p, '\n', t + ['\n'] + (n + ['\n'] + r.providerId));
    SplitAppend(t, '\n', n + ['\n'] + r.providerId);
    SplitAppend(n, '\n', r.providerId);
    SplitPlain(r.verb, '\n');
    SplitPlain(p, '\n');
    SplitPlain(t, '\n');
    SplitPlain(n, '\n');
    assert [r.verb] + ([p] + ([t] + ([n] + Split(r.providerId, '\n')))) == [r.verb, p, t, n] + Split(r.providerId, '\n');
  }

  /** Two requests that sign to the same text agree in method, path, timestamp, nonce and
      provider, and in the query whenever it is included. An empty path counts as "/". */
  lemma {:induction false} TextDeterminesRequest(a: OriginRequest, b: OriginRequest, includeQuery: bool)
    requires TextToSign(a, includeQuery).Success? && TextToSign(a, includeQuery) == TextToSign(b, includeQuery)
    requires Escaped(a) && Escaped(b)
    ensures a.verb == b.verb && NormalPath(a.path) == NormalPath(b.path)
    ensures a.timestamp == b.timestamp && a.nonce == b.nonce && a.providerId == b.providerId
    ensures includeQuery ==> a.query == b.query
  {
    hide IntText, HexText;
    var pa, pb := PathWithQuery(a.path, a.query, includeQuery), PathWithQuery(b.path, b.query, includeQuery);
    var ta, tb := IntText(a.timestamp), IntText(b.timestamp);
    var na, nb := HexText(a.nonce), HexText(b.nonce);
    HexIsPlain(a.nonce);
    HexIsPlain(b.nonce);
    SplitFirst(a.verb, b.verb, '\n', pa + ['\n'] + (ta + ['\n'] + (na + ['\n'] + a.providerId)),
               pb + ['\n'] + (tb + ['\n'] + (nb + ['\n'] + b.providerId)));
    SplitFirst(pa, pb, '\n', ta + ['\n'] + (na + ['\n'] + a.providerId), tb + ['\n'] + (nb + ['\n'] + b.providerId));
    SplitFirst(ta, tb, '\n', na + ['\n'] + a.providerId, nb + ['\n'] + b.providerId);
    SplitFirst(na, nb, '\n', a.providerId, b.providerId);
    IntTextInjective(a.timestamp, b.timestamp);
    HexInjective(a.nonce, b.nonce);
    if includeQuery {
      PathAndQueryInjective(a.path, a.query, b.path, b.query);
    } else {
      assert pa == NormalPath(a.path) && pb == NormalPath(b.path);
    }
  }

  // ---------------------------------------------------------------- content hashes

  datatype FileMeta = FileMeta(name: string, size: int, modified: int)

  function Line(f: FileMeta): string {
    f.name + ['|'] + IntText(f.size) + ['|'] + IntText(f.modified)
  }

  /** What is fed to the hash, file by file. */
  function Lines(files: seq<FileMeta>): string {
    if files == [] then "" else Line(files[0]) + ['\n'] + Lines(files[1..])
  }

  function Insert(f: FileMeta, files: seq<FileMeta>): seq<FileMeta> {
    if files == [] || !Less(files[0].name, f.name) then [f] + files
    else [files[0]] + Insert(f, files[1..])
  }

  function SortByName(files: seq<FileMeta>): seq<FileMeta> {
    if files == [] then [] else Insert(files[0], SortByName(files[1..]))
  }

  predicate DistinctNames(files: seq<FileMeta>) {
    forall i, j :: 0 <= i < j < |files| ==> files[i].name != files[j].name
  }

  predicate Increasing(files: seq<FileMeta>) {
    forall i, j :: 0 <= i < j < |files| ==> Less(files[i].name, files[j].name)
  }

  lemma {:induction false} TailIncreases(files: seq<FileMeta>)
    requires files != [] && Increasing(files)
    ensures Increasing(files[1..])
    ensures forall g :: g in files[1..] ==> Less(files[0].name, g.name)
  {
    hide Less;
    forall g | g in files[1..]
      ensures Less(files[0].name, g.name)
    {
      var j :| 0 <= j < |files| - 1 && files[1..][j] == g;
      assert files[j + 1] == g;
    }
  }

  lemma {:induction false} InsertSorts(f: FileMeta, files: seq<FileMeta>)
    requires Increasing(files) && forall g :: g in files ==> g.name != f.name
    ensures Increasing(Insert(f, files)) && multiset(Insert(f, files)) == multiset(files) + multiset{f}
  {
    hide Less;
    if files == [] {
    } else if !Less(files[0].name, f.name) {
      LessTotal(files[0].name, f.name);
      forall j | 0 < j < |files|
        ensures Less(f.name, files[j].name)
      {
        LessTransitive(f.name, files[0].name, files[j].name);
      }
    } else {
      assert files == [files[0]] + files[1..];
      TailIncreases(files);
      InsertSorts(f, files[1..]);
      var tail := Insert(f, files[1..]);
      forall j | 0 <= j < |tail|
        ensures Less(files[0].name, tail[j].name)
      {
        assert tail[j] in multiset(tail);
        if tail[j] != f {
          assert tail[j] in files[1..];
        }
      }
    }
  }

  lemma {:induction false} SortSorts(files: seq<FileMeta>)
    requires DistinctNames(files)
    ensures Increasing(SortByName(files)) && multiset(SortByName(files)) == multiset(files)
  {
    if files != [] {
      SortSorts(files[1..]);
      var rest := SortByName(files[1..]);
      forall g | g in rest
        ensures g.name != files[0].name
      {
        assert g in multiset(rest);
        assert g in files[1..];
      }
      InsertSorts(files[0], rest);
      assert files == [files[0]] + files[1..];
    }
  }

  lemma {:induction false} SmallestIsFirst(a: seq<FileMeta>, b: seq<FileMeta>)
    requires Increasing(a) && Increasing(b) && a != [] && b != []
    requires a[0] in b && b[0] in a
    ensures a[0] == b[0]
  {
    hide Less;
    var i :| 0 <= i < |b| && b[i] == a[0];
    var j :| 0 <= j < |a| && a[j] == b[0];
    LessTotal(a[0].name, b[0].name);
  }

  lemma {:induction false} Tail(a: seq<FileMeta>)
    requires a != []
    ensures multiset(a[1..]) == multiset(a) - multiset{a[0]}
    ensures a == [a[0]] + a[1..] && a[0] in multiset(a)
    ensures Increasing(a) ==> Increasing(a[1..])
  {
    hide Less;
    assert a == [a[0]] + a[1..];
  }

  lemma {:induction false} IncreasingIsUnique(a: seq<FileMeta>, b: seq<FileMeta>)
    requires Increasing(a) && Increasing(b) && multiset(a) == multiset(b)
    ensures a == b
  {
    hide Increasing;
    assert |multiset(a)| == |a| && |multiset(b)| == |b|;
    if a != [] {
      Tail(a);
      Tail(b);
      SmallestIsFirst(a, b);
      IncreasingIsUnique(a[1..], b[1..]);
    }
  }

  predicate PlainNames(files: seq<FileMeta>) {
    forall i :: 0 <= i < |files| ==> '\n' !in files[i].name
  }

  lemma {:induction false} LineIsPlain(f: FileMeta)
    requires '\n' !in f.name
    ensures '\n' !in Line(f)
  {
    hide IntText;
  }

  lemma {:induction false} LineInjective(f: FileMeta, g: FileMeta)
    requires Line(f) == Line(g)
    ensures f == g
  {
    hide IntText;
    SplitLast(f.name + ['|'] + IntText(f.size), g.name + ['|'] + IntText(g.size), '|',
              IntText(f.modified), IntText(g.modified));
    SplitLast(f.name, g.name, '|', IntText(f.size), IntText(g.size));
    IntTextInjective(f.size, g.size);
    IntTextInjective(f.modified, g.modified);
  }

  /** The name starts with a whole line of some file. */
  ghost predicate HidesLine(name: string) {
    exists f: FileMeta, rest: string :: name == Line(f) + ['\n'] + rest
  }

  ghost predicate NoneHides(files: seq<FileMeta>) {
    forall i :: 0 <= i < |files| ==> !HidesLine(files[i].name)
  }

  /** Names without line breaks hide no line. */
  lemma PlainNamesHideNothing(files: seq<FileMeta>)
    requires PlainNames(files)
    ensures NoneHides(files)
  {
    hide Line;
  }

  /** A file whose name hides `f` stands for `f` and one more. */
  function Merged(f: FileMeta, g: FileMeta): FileMeta {
    FileMeta(Line(f) + ['\n'] + g.name, g.size, g.modified)
  }

  lemma {:induction false} MergedLines(f: FileMeta, g: FileMeta, files: seq<FileMeta>)
    ensures Lines([Merged(f, g)] + files) == Lines([f, g] + files)
  {
    hide IntText;
    var h := Merged(f, g);
    LinesStep(h, files);
    LinesStep(f, [g] + files);
    LinesStep(g, files);
    assert [f] + ([g] + files) == [f, g] + files;
    assert Line(h) == Line(f) + ['\n'] + Line(g);
    assert Line(f) + ['\n'] + (Line(g) + ['\n'] + Lines(files)) == Line(h) + ['\n'] + Lines(files);
  }

  lemma {:induction false} LinesStep(f: FileMeta, files: seq<FileMeta>)
    ensures Lines([f] + files) == Line(f) + ['\n'] + Lines(files)
  {
    assert ([f] + files)[1..] == files;
  }

  /** Of two first lines of one text the longer one belongs to a name that hides the other. */
  lemma {:induction false} LongerFirstLine(f: FileMeta, h: FileMeta, s: string, t: string) returns (g: FileMeta)
    requires Line(f) + ['\n'] + s == Line(h) + ['\n'] + t && |Line(f)| < |Line(h)|
    ensures h == Merged(f, g) && HidesLine(h.name)
  {
    hide IntText;
    var n, tail := |Line(f)|, ['|'] + IntText(h.size) + ['|'] + IntText(h.modified);
    var text := Line(h) + ['\n'] + t;
    assert Line(h) == h.name + tail;
    assert text[n] == '\n' && text[n] == Line(h)[n];
    assert '\n' !in tail;
    assert forall i :: |h.name| <= i < |Line(h)| ==> Line(h)[i] in tail;
    assert text[..n] == Line(f) && h.name[..n] == text[..n];
    g := FileMeta(h.name[n + 1..], h.size, h.modified);
    assert h.name == Line(f) + ['\n'] + g.name;
  }

  /** Names that hide no line are read back: the text determines the files. */
  lemma {:induction false} LinesInjective(a: seq<FileMeta>, b: seq<FileMeta>)
    requires NoneHides(a) && NoneHides(b) && Lines(a) == Lines(b)
    ensures a == b
  {
    hide Line, HidesLine;
    if a != [] && b != [] {
      var f, g, s, t := a[0], b[0], Lines(a[1..]), Lines(b[1..]);
      if |Line(f)| < |Line(g)| {
        var _ := LongerFirstLine(f, g, s, t);
      } else if |Line(g)| < |Line(f)| {
        var _ := LongerFirstLine(g, f, t, s);
      } else {
        SameFirstLine(f, g, s, t);
        LinesInjective(a[1..], b[1..]);
        assert a == [a[0]] + a[1..] && b == [b[0]] + b[1..];
      }
    }
  }

  lemma {:induction false} SameFirstLine(f: FileMeta, g: FileMeta, s: string, t: string)
    requires Line(f) + ['\n'] + s == Line(g) + ['\n'] + t && |Line(f)| == |Line(g)|
    ensures f == g && s == t
  {
    hide Line;
    var x, y, n := Line(f) + ['\n'] + s, Line(g) + ['\n'] + t, |Line(f)|;
    assert x[..n] == Line(f) && y[..n] == Line(g);
    assert x[n + 1..] == s && y[n + 1..] == t;
    LineInjective(f, g);
  }

  /** Files with a longer sequence of the same text have a name that hides a line. */
  lemma {:induction false} LongerShowsHidden(files: seq<FileMeta>, longer: seq<FileMeta>)
    requires |longer| > |files| && Lines(longer) == Lines(files)
    ensures !NoneHides(files)
    decreases |files|
  {
    hide Line, HidesLine;
    if files != [] {
      var f, g, s, t := files[0], longer[0], Lines(files[1..]), Lines(longer[1..]);
      if |Line(g)| < |Line(f)| {
        var _ := LongerFirstLine(g, f, t, s);
      } else {
        var rest := longer[1..];
        if |Line(f)| < |Line(g)| {
          var h := LongerFirstLine(f, g, s, t);
          rest := [h] + longer[1..];
          MergedLines(f, h, longer[1..]);
          assert longer == [g] + longer[1..];
          LinesStep(f, rest);
          assert [f] + rest == [f, h] + longer[1..];
          SameFirstLine(f, f, s, Lines(rest));
        } else {
          SameFirstLine(f, g, s, t);
        }
        LongerShowsHidden(files[1..], rest);
        var i :| 0 <= i < |files| - 1 && HidesLine(files[1..][i].name);
        assert HidesLine(files[i + 1].name);
      }
    }
  }

  /** A hidden line makes the sequence one file longer. */
  lemma {:induction false} HiddenGivesLonger(files: seq<FileMeta>) returns (longer: seq<FileMeta>)
    requires !NoneHides(files)
    ensures |longer| == |files| + 1 && Lines(longer) == Lines(files)
  {
    hide Line;
    if HidesLine(files[0].name) {
      var f: FileMeta, rest: string :| files[0].name == Line(f) + ['\n'] + rest;
      var g := FileMeta(rest, files[0].size, files[0].modified);
      longer := [f, g] + files[1..];
      MergedLines(f, g, files[1..]);
      assert [Merged(f, g)] + files[1..] == files;
    } else {
      var i :| 0 <= i < |files| && HidesLine(files[i].name);
      assert files[1..][i - 1] == files[i];
      var rest := HiddenGivesLonger(files[1..]);
      longer := [files[0]] + rest;
      LinesStep(files[0], rest);
    }
  }

  /** A fact about sequences in any order: a longer one can have the text of these exactly when
      some name starts with a whole line. */
  lemma {:induction false} LongerListing(files: seq<FileMeta>)
    ensures (exists longer :: |longer| > |files| && Lines(longer) == Lines(files)) <==> !NoneHides(files)
  {
    hide Lines, NoneHides;
    if !NoneHides(files) {
      var longer := HiddenGivesLonger(files);
    }
    forall longer | |longer| > |files| && Lines(longer) == Lines(files)
      ensures !NoneHides(files)
    {
      LongerShowsHidden(files, longer);
    }
  }

  lemma {:induction false} SortHidesNothing(files: seq<FileMeta>)
    requires DistinctNames(files) && NoneHides(files)
    ensures NoneHides(SortByName(files))
  {
    hide HidesLine;
    SortSorts(files);
    var sorted := SortByName(files);
    forall i | 0 <= i < |sorted|
      ensures !HidesLine(sorted[i].name)
    {
      assert sorted[i] in multiset(sorted);
      assert sorted[i] in files;
    }
  }

  /** Two directory listings hash the same text exactly when they list the same files,
      in whatever order, as long as no name hides a line. */
  lemma {:induction false} PreimageIsTheFileSet(a: seq<FileMeta>, b: seq<FileMeta>)
    requires DistinctNames(a) && DistinctNames(b) && NoneHides(a) && NoneHides(b)
    ensures Lines(SortByName(a)) == Lines(SortByName(b)) <==> multiset(a) == multiset(b)
  {
    hide Lines, SortByName, NoneHides;
    SortSorts(a);
    SortSorts(b);
    if multiset(a) == multiset(b) {
      IncreasingIsUnique(SortByName(a), SortByName(b));
    }
    if Lines(SortByName(a)) == Lines(SortByName(b)) {
      SortHidesNothing(a);
      SortHidesNothing(b);
      LinesInjective(SortByName(a), SortByName(b));
    }
  }

  /** `f` stands for `g`, whose name hides nothing, and for `rest`. */
  ghost predicate StartsWith(f: FileMeta, g: FileMeta, rest: FileMeta) {
    f == Merged(g, rest) && !HidesLine(g.name) && |rest.name| < |f.name|
  }

  lemma {:induction false} FirstPiece(f: FileMeta) returns (g: FileMeta, rest: FileMeta)
    requires HidesLine(f.name)
    ensures StartsWith(f, g, rest)
    decreases |f.name|
  {
    hide IntText;
    var h: FileMeta, tail: string :| f.name == Line(h) + ['\n'] + tail;
    if HidesLine(h.name) {
      var h';
      g, h' := FirstPiece(h);
      rest := FileMeta(Line(h') + ['\n'] + tail, f.size, f.modified);
      assert Line(h) == Line(g) + ['\n'] + Line(h');
    } else {
      g, rest := h, FileMeta(tail, f.size, f.modified);
    }
  }

  ghost function Cut(f: FileMeta): (cut: (FileMeta, FileMeta))
    requires HidesLine(f.name)
    ensures StartsWith(f, cut.0, cut.1)
  {
    assert exists g, rest :: StartsWith(f, g, rest) by { var _, _ := FirstPiece(f); }
    var g, rest :| StartsWith(f, g, rest);
    (g, rest)
  }

  /** The files that a name stands for when every line that it hides is read as a file. */
  ghost function Pieces(f: FileMeta): seq<FileMeta>
    decreases |f.name|
  {
    if !HidesLine(f.name) then [f] else [Cut(f).0] + Pieces(Cut(f).1)
  }

  ghost function AllPieces(files: seq<FileMeta>): seq<FileMeta> {
    if files == [] then [] else Pieces(files[0]) + AllPieces(files[1..])
  }

  lemma {:induction false} LinesConcat(a: seq<FileMeta>, b: seq<FileMeta>)
    ensures Lines(a + b) == Lines(a) + Lines(b)
  {
    hide Line;
    if a == [] {
      assert a + b == b;
    } else {
      assert (a + b)[1..] == a[1..] + b;
      LinesConcat(a[1..], b);
    }
  }

  lemma {:induction false} PiecesKeepText(f: FileMeta)
    ensures Lines(Pieces(f)) == Lines([f]) && NoneHides(Pieces(f))
    decreases |f.name|
  {
    hide Line, Lines, HidesLine, Merged, Cut;
    if HidesLine(f.name) {
      var (g, rest) := Cut(f);
      PiecesKeepText(rest);
      MergedLines(g, rest, []);
      assert [f] + [] == [f] && [g, rest] + [] == [g] + [rest];
      LinesConcat([g], [rest]);
      LinesConcat([g], Pieces(rest));
    }
  }

  lemma {:induction false} AllPiecesKeepText(files: seq<FileMeta>)
    ensures Lines(AllPieces(files)) == Lines(files) && NoneHides(AllPieces(files))
  {
    hide Line, Lines, HidesLine, Pieces;
    if files != [] {
      PiecesKeepText(files[0]);
      AllPiecesKeepText(files[1..]);
      assert files == [files[0]] + files[1..];
      LinesConcat([files[0]], files[1..]);
      LinesConcat(Pieces(files[0]), AllPieces(files[1..]));
    }
  }

  /** Which listings hash the same text, without any condition on the names: those whose
      files, in name order, stand for the same pieces. */
  lemma {:induction false} SameTextSamePieces(a: seq<FileMeta>, b: seq<FileMeta>)
    ensures Lines(SortByName(a)) == Lines(SortByName(b)) <==> AllPieces(SortByName(a)) == AllPieces(SortByName(b))
  {
    hide Lines, SortByName, AllPieces, NoneHides;
    AllPiecesKeepText(SortByName(a));
    AllPiecesKeepText(SortByName(b));
    if Lines(SortByName(a)) == Lines(SortByName(b)) {
      LinesInjective(AllPieces(SortByName(a)), AllPieces(SortByName(b)));
    }
  }

  /** Another listing has the same files' text. */
  ghost predicate Shared(a: seq<FileMeta>) {
    exists b :: DistinctNames(b) && multiset(b) != multiset(a) && Lines(SortByName(b)) == Lines(SortByName(a))
  }

  /** The name is a line and a later name, so that both can be files of one sorted listing. */
  ghost predicate HidesInOrder(name: string) {
    exists f: FileMeta, rest: string :: name == Line(f) + ['\n'] + rest && Less(f.name, rest)
  }

  lemma {:induction false} LessExtended(a: string, rest: string)
    requires rest != ""
    ensures Less(a, a + rest)
  {
    if a == "" {
      assert a + rest == rest;
    } else {
      assert (a + rest)[1..] == a[1..] + rest;
      LessExtended(a[1..], rest);
    }
  }

  lemma {:induction false} MergedIsLater(f: FileMeta, g: FileMeta)
    ensures Less(f.name, Merged(f, g).name)
  {
    hide IntText, Less;
    var rest := ['|'] + IntText(f.size) + ['|'] + IntText(f.modified) + ['\n'] + g.name;
    assert Merged(f, g).name == f.name + rest;
    LessExtended(f.name, rest);
  }

  lemma {:induction false} IncreasingIsDistinct(files: seq<FileMeta>)
    requires Increasing(files)
    ensures DistinctNames(files)
  {
    hide Less;
    forall i, j | 0 <= i < j < |files|
      ensures files[i].name != files[j].name
    {
      LessIrreflexive(files[i].name);
    }
  }

  /** Merging the last two files in name order keeps the order and the text. */
  lemma {:induction false} MergedLast(files: seq<FileMeta>) returns (merged: seq<FileMeta>)
    requires Increasing(files) && |files| >= 2
    ensures Increasing(merged) && |merged| == |files| - 1 && Lines(merged) == Lines(files)
  {
    hide Less, Line, Lines, Merged;
    var n := |files| - 2;
    var front, f, g := files[..n], files[n], files[n + 1];
    merged := front + [Merged(f, g)];
    forall i | 0 <= i < n
      ensures Less(files[i].name, Merged(f, g).name)
    {
      MergedIsLater(f, g);
      LessTransitive(files[i].name, f.name, Merged(f, g).name);
    }
    MergedLines(f, g, []);
    assert [Merged(f, g)] + [] == [Merged(f, g)] && [f, g] + [] == [f, g];
    LinesConcat(front, [Merged(f, g)]);
    LinesConcat(front, [f, g]);
    assert front + [f, g] == files;
  }

  lemma {:induction false} SharesWith(a: seq<FileMeta>, b: seq<FileMeta>)
    requires Increasing(b) && |b| != |a| && Lines(b) == Lines(SortByName(a))
    ensures Shared(a)
  {
    hide Lines, SortByName, Less;
    IncreasingIsDistinct(b);
    SortedStays(b);
    assert |multiset(a)| == |a| && |multiset(b)| == |b|;
  }

  /** The first of the files that have the text of one is it, or has a smaller name. */
  lemma {:induction false} FirstOfText(files: seq<FileMeta>, f: FileMeta)
    requires files != [] && Lines(files) == Lines([f])
    ensures |files| == 1 ==> files == [f]
    ensures |files| > 1 ==> exists rest :: f == Merged(files[0], rest) && Lines(files[1..]) == Lines([rest])
  {
    hide IntText, Merged;
    var g, tail := files[0], Lines(files[1..]);
    assert [f][1..] == [];
    assert Lines([f]) == Line(f) + ['\n'] + "" && Lines(files) == Line(g) + ['\n'] + tail;
    if |files| == 1 {
      assert tail == "";
      SameFirstLine(g, f, tail, "");
    } else {
      assert tail != "";
      var rest := LongerFirstLine(g, f, tail, "");
      MergedLines(g, rest, []);
      assert [f] + [] == [f] && [g, rest] + [] == [g] + [rest];
      LinesStep(g, [rest]);
      SameFirstLine(g, g, tail, Lines([rest]));
    }
  }

  lemma {:induction false} FirstNameIsLeast(files: seq<FileMeta>, f: FileMeta)
    requires files != [] && Lines(files) == Lines([f])
    ensures files[0].name == f.name || Less(files[0].name, f.name)
  {
    hide Less, Merged, Lines;
    FirstOfText(files, f);
    if |files| > 1 {
      var rest :| f == Merged(files[0], rest) && Lines(files[1..]) == Lines([rest]);
      MergedIsLater(files[0], rest);
    }
  }

  /** A single file shares its text exactly when its name is a line and a later name. */
  lemma {:induction false} SingleIsShared(f: FileMeta)
    ensures Shared([f]) <==> HidesInOrder(f.name)
  {
    hide Less, Lines, SortByName, Line;
    SortedStays([f]);
    if HidesInOrder(f.name) {
      var g: FileMeta, tail: string :| f.name == Line(g) + ['\n'] + tail && Less(g.name, tail);
      var rest := FileMeta(tail, f.size, f.modified);
      MergedLines(g, rest, []);
      assert [f] + [] == [f] && [g, rest] + [] == [g, rest];
      SharesWith([f], [g, rest]);
    }
    if Shared([f]) {
      var b :| DistinctNames(b) && multiset(b) != multiset([f]) && Lines(SortByName(b)) == Lines(SortByName([f]));
      SortSorts(b);
      SharedSplits(SortByName(b), f);
    }
  }

  lemma {:induction false} SharedSplits(files: seq<FileMeta>, f: FileMeta)
    requires Increasing(files) && multiset(files) != multiset([f]) && Lines(files) == Lines([f])
    ensures HidesInOrder(f.name)
  {
    hide Less, Line, Lines;
    OnlyNothingIsEmpty([f]);
    FirstOfText(files, f);
    var rest :| f == Merged(files[0], rest) && Lines(files[1..]) == Lines([rest]);
    FirstNameIsLeast(files[1..], rest);
    assert Less(files[0].name, files[1].name);
    if files[1].name != rest.name {
      LessTransitive(files[0].name, files[1].name, rest.name);
    }
  }

  /** Exactly when the hashed text does not tell the listing: two files or more, or a single
      one whose name is a line and a later name. */
  lemma {:induction false} ListingIsShared(a: seq<FileMeta>)
    requires DistinctNames(a)
    ensures Shared(a) <==> |a| >= 2 || (|a| == 1 && HidesInOrder(a[0].name))
  {
    hide Lines, SortByName, HidesInOrder, Less;
    if |a| >= 2 {
      SortSorts(a);
      assert |multiset(SortByName(a))| == |multiset(a)|;
      var merged := MergedLast(SortByName(a));
      SharesWith(a, merged);
    } else if |a| == 1 {
      SingleIsShared(a[0]);
      assert a == [a[0]];
    } else {
      NothingIsNotShared();
      assert a == [];
    }
  }

  lemma {:induction false} NothingIsNotShared()
    ensures !Shared([])
  {
    hide Lines, SortByName, Less;
    SortedStays([]);
    forall b | DistinctNames(b) && Lines(SortByName(b)) == Lines(SortByName([]))
      ensures multiset(b) == multiset([])
    {
      SortSorts(b);
      var files := SortByName(b);
      if files != [] {
        OnlyNothingIsEmpty(files);
      }
    }
  }

  lemma {:induction false} OnlyNothingIsEmpty(files: seq<FileMeta>)
    ensures Lines(files) == Lines([]) ==> files == []
  {
    hide Line;
  }

  /** The listings that scanAssetDir hashes: distinct servable names, among them the master
      playlist and something to play. */
  predicate Hashed(files: seq<FileMeta>) {
    && DistinctNames(files)
    && (forall i :: 0 <= i < |files| ==> AssetPaths.ValidExtension(files[i].name).Some?)
    && (exists i :: 0 <= i < |files| && AssetPaths.Lower(files[i].name) == "master.m3u8")
    && (exists i :: 0 <= i < |files| && AssetPaths.ValidExtension(files[i].name) !in {None, Some(".m3u8")})
  }

  lemma {:induction false} SortedStays(files: seq<FileMeta>)
    requires DistinctNames(files) && Increasing(files)
    ensures SortByName(files) == files
  {
    hide SortByName, Less;
    SortSorts(files);
    IncreasingIsUnique(SortByName(files), files);
  }

  lemma {:induction false} ExtAfterDot(head: string, e: string)
    requires '.' !in e
    ensures AssetPaths.Ext(head + (['.'] + e)) == ['.'] + e
  {
    var name := head + (['.'] + e);
    if head == "" {
      assert name == ['.'] + e && name[1..] == e;
    } else {
      assert name[1..] == head[1..] + (['.'] + e);
      assert name[1..][|head| - 1] == '.';
      ExtAfterDot(head[1..], e);
    }
  }

  lemma {:induction false} LowerStays(s: string)
    requires forall i :: 0 <= i < |s| ==> !('A' <= s[i] <= 'Z')
    ensures AssetPaths.Lower(s) == s
  {
    if s != "" {
      LowerStays(s[1..]);
      assert s == [s[0]] + s[1..];
    }
  }

  lemma {:induction false} SegmentName(head: string)
    ensures AssetPaths.ValidExtension(head + ".ts") == Some(".ts")
  {
    hide AssetPaths.Ext, AssetPaths.Lower;
    ExtAfterDot(head, "ts");
    assert ['.'] + "ts" == ".ts";
    LowerStays(".ts");
  }

  lemma {:induction false} MasterName()
    ensures AssetPaths.ValidExtension("master.m3u8") == Some(".m3u8")
    ensures AssetPaths.Lower("master.m3u8") == "master.m3u8"
  {
    hide AssetPaths.Ext, AssetPaths.Lower;
    ExtAfterDot("master", "m3u8");
    assert "master" + (['.'] + "m3u8") == "master.m3u8" && ['.'] + "m3u8" == ".m3u8";
    LowerStays(".m3u8");
    LowerStays("master.m3u8");
  }

  lemma {:induction false} HashedWithMaster(segments: seq<FileMeta>, master: FileMeta)
    requires segments != [] && Increasing(segments + [master]) && master.name == "master.m3u8"
    requires forall i :: 0 <= i < |segments| ==> AssetPaths.ValidExtension(segments[i].name) == Some(".ts")
    ensures Hashed(segments + [master]) && SortByName(segments + [master]) == segments + [master]
  {
    hide Less, AssetPaths.ValidExtension, AssetPaths.Lower, SortByName;
    var files := segments + [master];
    forall i, j | 0 <= i < j < |files|
      ensures files[i].name != files[j].name
    {
      LessIrreflexive(files[i].name);
    }
    MasterName();
    assert files[0] == segments[0] && files[|segments|] == master;
    SortedStays(files);
  }

  /** Two directories that are both hashed, to the same text: one holds two segments, the
      other a single one whose name hides the line of the first. */
  lemma {:induction false} HashedTwins(size: int, modified: int, size': int, modified': int, master: FileMeta)
    requires master.name == "master.m3u8"
    ensures var f, g := FileMeta("a.ts", size, modified), FileMeta("b.ts", size', modified');
            && Hashed([f, g] + [master]) && Hashed([Merged(f, g)] + [master])
            && Lines(SortByName([f, g] + [master])) == Lines(SortByName([Merged(f, g)] + [master]))
  {
    hide IntText, Lines, SortByName, AssetPaths.ValidExtension, Hashed;
    var f, g := FileMeta("a.ts", size, modified), FileMeta("b.ts", size', modified');
    var h := Merged(f, g);
    assert h.name[0] == 'a';
    assert h.name == (Line(f) + ['\n'] + "b") + ".ts" && "a.ts" == "a" + ".ts" && "b.ts" == "b" + ".ts";
    SegmentName(Line(f) + ['\n'] + "b");
    SegmentName("a");
    SegmentName("b");
    assert Less("a.ts", "b.ts") && Less("a.ts", "master.m3u8") && Less("b.ts", "master.m3u8");
    assert Less(h.name, "master.m3u8");
    HashedWithMaster([f, g], master);
    HashedWithMaster([h], master);
    MergedLines(f, g, [master]);
  }

  /** The fields of a line: the name in as many pieces as it has separators and one more, then
      size and modification time. */
  lemma {:induction false} LineFields(f: FileMeta)
    ensures Split(Line(f), '|') == Split(f.name, '|') + [IntText(f.size), IntText(f.modified)]
  {
    hide IntText, Split;
    SplitAppend(f.name + ['|'] + IntText(f.size), '|', IntText(f.modified));
    SplitAppend(f.name, '|', IntText(f.size));
    SplitPlain(IntText(f.size), '|');
    SplitPlain(IntText(f.modified), '|');
  }

  /** The lines of each file in turn: more than one for a name with line breaks. */
  function LinesOfFiles(files: seq<FileMeta>): seq<string> {
    if files == [] then [] else Split(Line(files[0]), '\n') + LinesOfFiles(files[1..])
  }

  /** The hashed text read line by line: the lines of each file, each ended by a line break;
      one per file when no name has one. */
  lemma {:induction false} LinesByFile(files: seq<FileMeta>)
    ensures Split(Lines(files), '\n') == LinesOfFiles(files) + [""]
    ensures PlainNames(files) ==> LinesOfFiles(files) == seq(|files|, i requires 0 <= i < |files| => Line(files[i]))
  {
    hide Line, Split;
    if files == [] {
      SplitPlain("", '\n');
    } else {
      LinesByFile(files[1..]);
      SplitAppend(Line(files[0]), '\n', Lines(files[1..]));
      if PlainNames(files) {
        LineIsPlain(files[0]);
        SplitPlain(Line(files[0]), '\n');
      }
    }
  }

  lemma {:induction false} LinesAppend(files: seq<FileMeta>, f: FileMeta)
    ensures Lines(files + [f]) == Lines(files) + (Line(f) + ['\n'])
  {
    hide Line;
    if files == [] {
      assert ([] + [f])[1..] == [];
    } else {
      assert (files + [f])[1..] == files[1..] + [f];
      LinesAppend(files[1..], f);
    }
  }

  /** computeContentHash up to the hash: sort, then write one line per file. */
  method ContentText(files: seq<FileMeta>) returns (text: string)
    ensures text == Lines(SortByName(files))
  {
    hide Lines, Line;
    var sorted := SortByName(files);
    text := "";
    LinesNone();
    for i := 0 to |sorted|
      invariant text == Lines(sorted[..i])
    {
      LinesAppend(sorted[..i], sorted[i]);
      assert sorted[..i] + [sorted[i]] == sorted[..i + 1];
      text := text + (Line(sorted[i]) + ['\n']);
    }
    assert sorted[..|sorted|] == sorted;
  }

  lemma LinesNone()
    ensures Lines([]) == ""
  {
  }
}
