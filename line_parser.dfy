/**
 * The access-log line pattern `LOG_RECORD_RE` and `process_line`.
 *
 * The pattern is matched by hand, field by field, on `seq<char>`.  The
 * declarative reading of the pattern is `Shaped(line, r)`: the line is the
 * concatenation of the fields of a record `r`, each in its character class,
 * followed by trailing text (the pattern has no end anchor).  The regular
 * expression engine tries the greedy user-agent field `".*"` longest first,
 * so of all such decompositions it reports the one with the longest user
 * agent; `Parse` is proved to return exactly that one, and nothing when no
 * decomposition exists.
 */
module LineParser {
  import opened Results

  // ---------------------------------------------------------------------
  // Character classes
  // ---------------------------------------------------------------------

  /** `\s` on a Python str: the characters for which `str.isspace()` holds. */
  predicate IsSpace(c: char) {
    var n := c as int;
    (9 <= n <= 13) || (28 <= n <= 32) || n == 0x85 || n == 0xA0 || n == 0x1680
    || (0x2000 <= n <= 0x200A) || n == 0x2028 || n == 0x2029 || n == 0x202F
    || n == 0x205F || n == 0x3000
  }

  /** `\d`, restricted to ASCII digits. */
  predicate IsDigit(c: char) { '0' <= c <= '9' }

  /** The character classes the pattern uses. */
  datatype Class =
    | Space      // `\s`
    | NonSpace   // `\S`
    | Digit      // `\d`
    | NonNewline // `.`

  predicate In(c: char, k: Class) {
    match k
    case Space => IsSpace(c)
    case NonSpace => !IsSpace(c)
    case Digit => IsDigit(c)
    case NonNewline => c != '\n'
  }

  predicate All(w: string, k: Class) {
    forall i :: 0 <= i < |w| ==> In(w[i], k)
  }

  /** `\S+` */
  predicate IsWord(w: string) { |w| > 0 && All(w, NonSpace) }

  /** `\s+` */
  predicate IsGap(w: string) { |w| > 0 && All(w, Space) }

  /** `\d+` */
  predicate IsNumber(w: string) { |w| > 0 && All(w, Digit) }

  /** Length of the longest prefix of `s` whose characters are in class `k`. */
  function RunLen(s: string, k: Class): (n: nat)
    ensures n <= |s|
    ensures forall i :: 0 <= i < n ==> In(s[i], k)
    ensures n < |s| ==> !In(s[n], k)
  {
    if s == [] || !In(s[0], k) then 0
    else 1 + RunLen(s[1..], k)
  }

  /** A run of class `k` ended by a character outside `k` is the longest such prefix. */
  lemma RunLenOf(w: string, t: string, k: Class)
    requires All(w, k)
    requires t == [] || !In(t[0], k)
    ensures RunLen(w + t, k) == |w|
  {
    var s := w + t;
    assert forall i :: 0 <= i < |w| ==> s[i] == w[i];
    assert |w| < |s| ==> s[|w|] == t[0];
  }

  // ---------------------------------------------------------------------
  // Field matchers: each returns the field(s) and the text after them
  // ---------------------------------------------------------------------

  /** `c`: one literal character. */
  function Literal(s: string, c: char): (r: Option<string>)
    ensures r.Some? ==> s == [c] + r.value
  {
    if |s| > 0 && s[0] == c then Some(s[1..]) else None
  }

  /** `\S+ `: a word followed by one space. */
  function Word(s: string): (r: Option<(string, string)>)
    ensures r.Some? ==> IsWord(r.value.0) && s == r.value.0 + (" " + r.value.1)
  {
    var n := RunLen(s, NonSpace);
    if 0 < n < |s| && s[n] == ' ' then
      assert s == s[..n] + (" " + s[n + 1..]);
      Some((s[..n], s[n + 1..]))
    else None
  }

  lemma WordOf(w: string, t: string)
    requires IsWord(w)
    ensures Word(w + (" " + t)) == Some((w, t))
  {
    var s := w + (" " + t);
    RunLenOf(w, " " + t, NonSpace);
    assert s[..|w|] == w;
    assert s[|w| + 1..] == t;
  }

  /** `\S+X `: a word, the closing character `close`, then one space. */
  function Closed(s: string, close: char): (r: Option<(string, string)>)
    ensures r.Some? ==> IsWord(r.value.0) && s == r.value.0 + ([close] + (" " + r.value.1))
  {
    var n := RunLen(s, NonSpace);
    if 1 < n < |s| && s[n - 1] == close && s[n] == ' ' then
      assert s[..n - 1] == s[..n][..n - 1];
      assert s == s[..n - 1] + ([close] + (" " + s[n + 1..]));
      Some((s[..n - 1], s[n + 1..]))
    else None
  }

  lemma ClosedOf(w: string, close: char, t: string)
    requires IsWord(w) && In(close, NonSpace)
    ensures Closed(w + ([close] + (" " + t)), close) == Some((w, t))
  {
    var s := w + ([close] + (" " + t));
    assert s == (w + [close]) + (" " + t);
    RunLenOf(w + [close], " " + t, NonSpace);
    assert s[..|w|] == w;
    assert s[|w| + 2..] == t;
  }

  /** `\d+ `: a number followed by one space. */
  function Number(s: string): (r: Option<(string, string)>)
    ensures r.Some? ==> IsNumber(r.value.0) && s == r.value.0 + (" " + r.value.1)
  {
    var n := RunLen(s, Digit);
    if 0 < n < |s| && s[n] == ' ' then
      assert s == s[..n] + (" " + s[n + 1..]);
      Some((s[..n], s[n + 1..]))
    else None
  }

  lemma NumberOf(w: string, t: string)
    requires IsNumber(w)
    ensures Number(w + (" " + t)) == Some((w, t))
  {
    var s := w + (" " + t);
    RunLenOf(w, " " + t, Digit);
    assert s[..|w|] == w;
    assert s[|w| + 1..] == t;
  }

  /** `\S+\s+`: the remote user and the blank run after it. */
  function UserGap(s: string): (r: Option<(string, string, string)>)
    ensures r.Some? ==> && IsWord(r.value.0) && IsGap(r.value.1)
                        && (r.value.2 == [] || In(r.value.2[0], NonSpace))
                        && s == r.value.0 + (r.value.1 + r.value.2)
  {
    var n := RunLen(s, NonSpace);
    var m := RunLen(s[n..], Space);
    if n > 0 && m > 0 then
      assert s[n..][..m] == s[n..n + m];
      assert s == s[..n] + (s[n..n + m] + s[n + m..]);
      Some((s[..n], s[n..n + m], s[n + m..]))
    else None
  }

  lemma UserGapOf(w: string, g: string, t: string)
    requires IsWord(w) && IsGap(g) && (t == [] || In(t[0], NonSpace))
    ensures UserGap(w + (g + t)) == Some((w, g, t))
  {
    var s := w + (g + t);
    RunLenOf(w, g + t, NonSpace);
    assert s[|w|..] == g + t;
    RunLenOf(g, t, Space);
    assert s[..|w|] == w;
    assert s[|w|..|w| + |g|] == g;
    assert s[|w| + |g|..] == t;
  }

  /** `\d+\.\d+` with the greedy last run: whole part, fraction digits, trailing text. */
  function Time(s: string): (r: Option<(string, string, string)>)
    ensures r.Some? ==> && IsNumber(r.value.0) && IsNumber(r.value.1)
                        && (r.value.2 == [] || !In(r.value.2[0], Digit))
                        && s == r.value.0 + ("." + (r.value.1 + r.value.2))
  {
    var n := RunLen(s, Digit);
    if 0 < n < |s| && s[n] == '.' then
      var m := RunLen(s[n + 1..], Digit);
      if m > 0 then
        assert s[n + 1..][..m] == s[n + 1..n + 1 + m];
        assert s == s[..n] + ("." + (s[n + 1..n + 1 + m] + s[n + 1 + m..]));
        Some((s[..n], s[n + 1..n + 1 + m], s[n + 1 + m..]))
      else None
    else None
  }

  lemma TimeOf(w: string, f: string, t: string)
    requires IsNumber(w) && IsNumber(f) && (t == [] || !In(t[0], Digit))
    ensures Time(w + ("." + (f + t))) == Some((w, f, t))
  {
    var s := w + ("." + (f + t));
    RunLenOf(w, "." + (f + t), Digit);
    assert s[|w| + 1..] == f + t;
    RunLenOf(f, t, Digit);
    assert s[..|w|] == w;
    assert s[|w| + 1..|w| + 1 + |f|] == s[|w| + 1..][..|f|] == (f + t)[..|f|] == f;
    assert s[|w| + 1 + |f|..] == s[|w| + 1..][|f|..] == (f + t)[|f|..] == t;
  }

  // ---------------------------------------------------------------------
  // The sections of the pattern: each matcher returns its fields and the
  // text after them; each renderer lays the fields out before a given text
  // ---------------------------------------------------------------------

  /** `"\S+" `: a quoted word, then one space. */
  function RenderQuoted(w: string, t: string): string {
    ['"'] + (w + (['"'] + (" " + t)))
  }

  function Quoted(s: string): (r: Option<(string, string)>)
    ensures r.Some? ==> IsWord(r.value.0) && s == RenderQuoted(r.value.0, r.value.1)
  {
    match Literal(s, '"')
    case None => None
    case Some(s1) => Closed(s1, '"')
  }

  lemma QuotedOf(w: string, t: string)
    requires IsWord(w)
    ensures Quoted(RenderQuoted(w, t)) == Some((w, t))
  {
    var s1 := w + (['"'] + (" " + t));
    assert Literal(RenderQuoted(w, t), '"') == Some(s1) by {
      assert RenderQuoted(w, t)[1..] == s1;
    }
    ClosedOf(w, '"', t);
  }

  /** `\S+ \S+\s+\S+ `: remote_addr, remote_user, the blank run after it, http_x_real_ip. */
  function RenderPeer(addr: string, user: string, gap: string, realIp: string, t: string): string {
    addr + (" " + (user + (gap + (realIp + (" " + t)))))
  }

  function Peer(s: string): (r: Option<(string, string, string, string, string)>)
    ensures r.Some? ==>
      var (addr, user, gap, realIp, t) := r.value;
      IsWord(addr) && IsWord(user) && IsGap(gap) && IsWord(realIp)
      && s == RenderPeer(addr, user, gap, realIp, t)
  {
    match Word(s)
    case None => None
    case Some((addr, s1)) =>
    match UserGap(s1)
    case None => None
    case Some((user, gap, s2)) =>
    match Word(s2)
    case None => None
    case Some((realIp, t)) => Some((addr, user, gap, realIp, t))
  }

  lemma PeerOf(addr: string, user: string, gap: string, realIp: string, t: string)
    requires IsWord(addr) && IsWord(user) && IsGap(gap) && IsWord(realIp)
    ensures Peer(RenderPeer(addr, user, gap, realIp, t)) == Some((addr, user, gap, realIp, t))
  {
    var s2 := realIp + (" " + t);
    var s1 := user + (gap + s2);
    WordOf(addr, s1);
    assert s2[0] == realIp[0];
    UserGapOf(user, gap, s2);
    WordOf(realIp, t);
  }

  /** `\[\S+ \S+\] `: time_local, as its date and its zone. */
  function RenderClock(date: string, zone: string, t: string): string {
    ['['] + (date + (" " + (zone + ([']'] + (" " + t)))))
  }

  function Clock(s: string): (r: Option<(string, string, string)>)
    ensures r.Some? ==>
      var (date, zone, t) := r.value;
      IsWord(date) && IsWord(zone) && s == RenderClock(date, zone, t)
  {
    match Literal(s, '[')
    case None => None
    case Some(s1) =>
    match Word(s1)
    case None => None
    case Some((date, s2)) =>
    match Closed(s2, ']')
    case None => None
    case Some((zone, t)) => Some((date, zone, t))
  }

  lemma ClockOf(date: string, zone: string, t: string)
    requires IsWord(date) && IsWord(zone)
    ensures Clock(RenderClock(date, zone, t)) == Some((date, zone, t))
  {
    var s2 := zone + ([']'] + (" " + t));
    var s1 := date + (" " + s2);
    assert Literal(['['] + s1, '[') == Some(s1) by {
      assert (['['] + s1)[1..] == s1;
    }
    WordOf(date, s2);
    ClosedOf(zone, ']', t);
  }

  /** `"\S+ \S+ \S+" `: the request line, as verb, href and protocol. */
  function RenderRequest(verb: string, href: string, protocol: string, t: string): string {
    ['"'] + (verb + (" " + (href + (" " + (protocol + (['"'] + (" " + t)))))))
  }

  function Request(s: string): (r: Option<(string, string, string, string)>)
    ensures r.Some? ==>
      var (verb, href, protocol, t) := r.value;
      IsWord(verb) && IsWord(href) && IsWord(protocol)
      && s == RenderRequest(verb, href, protocol, t)
  {
    match Literal(s, '"')
    case None => None
    case Some(s1) =>
    match Word(s1)
    case None => None
    case Some((verb, s2)) =>
    match Word(s2)
    case None => None
    case Some((href, s3)) =>
    match Closed(s3, '"')
    case None => None
    case Some((protocol, t)) => Some((verb, href, protocol, t))
  }

  lemma RequestOf(verb: string, href: string, protocol: string, t: string)
    requires IsWord(verb) && IsWord(href) && IsWord(protocol)
    ensures Request(RenderRequest(verb, href, protocol, t)) == Some((verb, href, protocol, t))
  {
    var s3 := protocol + (['"'] + (" " + t));
    var s2 := href + (" " + s3);
    var s1 := verb + (" " + s2);
    assert Literal(['"'] + s1, '"') == Some(s1) by {
      assert (['"'] + s1)[1..] == s1;
    }
    WordOf(verb, s2);
    WordOf(href, s3);
    ClosedOf(protocol, '"', t);
  }

  /** `\d+ \d+ `: status and body_bytes_sent. */
  function RenderCounters(status: string, bytesSent: string, t: string): string {
    status + (" " + (bytesSent + (" " + t)))
  }

  function Counters(s: string): (r: Option<(string, string, string)>)
    ensures r.Some? ==>
      var (status, bytesSent, t) := r.value;
      IsNumber(status) && IsNumber(bytesSent) && s == RenderCounters(status, bytesSent, t)
  {
    match Number(s)
    case None => None
    case Some((status, s1)) =>
    match Number(s1)
    case None => None
    case Some((bytesSent, t)) => Some((status, bytesSent, t))
  }

  lemma CountersOf(status: string, bytesSent: string, t: string)
    requires IsNumber(status) && IsNumber(bytesSent)
    ensures Counters(RenderCounters(status, bytesSent, t)) == Some((status, bytesSent, t))
  {
    NumberOf(status, bytesSent + (" " + t));
    NumberOf(bytesSent, t);
  }

  /** `\d+\.\d+` and the unanchored text after it. */
  function RenderTime(whole: string, fraction: string, rest: string): string {
    whole + ("." + (fraction + rest))
  }

  /**
   * `"\S+" "\S+" "\S+" \d+\.\d+`: http_x_forwarded_for, http_X_REQUEST_ID,
   * http_X_RB_USER and request_time, then the unanchored text after it.
   */
  function RenderTrailer(forwardedFor: string, requestId: string, rbUser: string,
                         whole: string, fraction: string, rest: string): string
  {
    RenderQuoted(forwardedFor, RenderQuoted(requestId, RenderQuoted(rbUser,
      RenderTime(whole, fraction, rest))))
  }

  function Trailer(s: string): (r: Option<(string, string, string, string, string, string)>)
    ensures r.Some? ==>
      var (forwardedFor, requestId, rbUser, whole, fraction, rest) := r.value;
      && IsWord(forwardedFor) && IsWord(requestId) && IsWord(rbUser)
      && IsNumber(whole) && IsNumber(fraction) && (rest == [] || !In(rest[0], Digit))
      && s == RenderTrailer(forwardedFor, requestId, rbUser, whole, fraction, rest)
  {
    match Quoted(s)
    case None => None
    case Some((forwardedFor, s1)) =>
    match Quoted(s1)
    case None => None
    case Some((requestId, s2)) =>
    match Quoted(s2)
    case None => None
    case Some((rbUser, s3)) =>
    match Time(s3)
    case None => None
    case Some((whole, fraction, rest)) => Some((forwardedFor, requestId, rbUser, whole, fraction, rest))
  }

  lemma TrailerOf(forwardedFor: string, requestId: string, rbUser: string,
                  whole: string, fraction: string, rest: string)
    requires IsWord(forwardedFor) && IsWord(requestId) && IsWord(rbUser)
    requires IsNumber(whole) && IsNumber(fraction) && (rest == [] || !In(rest[0], Digit))
    ensures Trailer(RenderTrailer(forwardedFor, requestId, rbUser, whole, fraction, rest))
         == Some((forwardedFor, requestId, rbUser, whole, fraction, rest))
  {
    var s3 := RenderTime(whole, fraction, rest);
    var s2 := RenderQuoted(rbUser, s3);
    var s1 := RenderQuoted(requestId, s2);
    QuotedOf(forwardedFor, s1);
    QuotedOf(requestId, s2);
    QuotedOf(rbUser, s3);
    TimeOf(whole, fraction, rest);
  }

  // ---------------------------------------------------------------------
  // The record and its declarative reading
  // ---------------------------------------------------------------------

  /** The fields before the user agent, in pattern order. */
  datatype Head = Head(
    remoteAddr: string, remoteUser: string, gap: string, realIp: string,
    date: string, zone: string,
    verb: string, href: string, protocol: string,
    status: string, bytesSent: string, referer: string)

  /** The fields after the user agent; `rest` is the unanchored trailing text. */
  datatype Tail = Tail(
    forwardedFor: string, requestId: string, rbUser: string,
    whole: string, fraction: string, rest: string)

  datatype Record = Record(head: Head, userAgent: string, tail: Tail)

  predicate WellFormedHead(h: Head) {
    && IsWord(h.remoteAddr) && IsWord(h.remoteUser) && IsGap(h.gap) && IsWord(h.realIp)
    && IsWord(h.date) && IsWord(h.zone)
    && IsWord(h.verb) && IsWord(h.href) && IsWord(h.protocol)
    && IsNumber(h.status) && IsNumber(h.bytesSent) && IsWord(h.referer)
  }

  /** The last `\d+` is greedy, so the trailing text cannot start with a digit. */
  predicate WellFormedTail(t: Tail) {
    && IsWord(t.forwardedFor) && IsWord(t.requestId) && IsWord(t.rbUser)
    && IsNumber(t.whole) && IsNumber(t.fraction)
    && (t.rest == [] || !In(t.rest[0], Digit))
  }

  predicate WellFormed(r: Record) {
    WellFormedHead(r.head) && All(r.userAgent, NonNewline) && WellFormedTail(r.tail)
  }

  /** The head, up to and including the quote that opens the user agent, then `t`. */
  function RenderHead(h: Head, t: string): string {
    RenderPeer(h.remoteAddr, h.remoteUser, h.gap, h.realIp,
      RenderClock(h.date, h.zone,
        RenderRequest(h.verb, h.href, h.protocol,
          RenderCounters(h.status, h.bytesSent,
            RenderQuoted(h.referer, ['"'] + t)))))
  }

  /** The tail, from the quote that closes the user agent to the end of the line. */
  function RenderTail(t: Tail): string {
    ['"'] + ([' '] +
      RenderTrailer(t.forwardedFor, t.requestId, t.rbUser, t.whole, t.fraction, t.rest))
  }

  function Render(r: Record): string {
    RenderHead(r.head, r.userAgent + RenderTail(r.tail))
  }

  /** `line` decomposes into the fields of `r` as the pattern lays them out. */
  predicate Shaped(line: string, r: Record) {
    WellFormed(r) && line == Render(r)
  }

  // ---------------------------------------------------------------------
  // The matcher
  // ---------------------------------------------------------------------

  /** Matches the head; returns its fields and the text from the user agent on. */
  function ParseHead(s: string): (r: Option<(Head, string)>)
    ensures r.Some? ==> WellFormedHead(r.value.0) && s == RenderHead(r.value.0, r.value.1)
  {
    match Peer(s)
    case None => None
    case Some((remoteAddr, remoteUser, gap, realIp, s1)) =>
    match Clock(s1)
    case None => None
    case Some((date, zone, s2)) =>
    match Request(s2)
    case None => None
    case Some((verb, href, protocol, s3)) =>
    match Counters(s3)
    case None => None
    case Some((status, bytesSent, s4)) =>
    match Quoted(s4)
    case None => None
    case Some((referer, s5)) =>
    match Literal(s5, '"')
    case None => None
    case Some(body) =>
    Some((Head(remoteAddr, remoteUser, gap, realIp, date, zone,
               verb, href, protocol, status, bytesSent, referer), body))
  }

  /** Matches the tail against the whole of `s`. */
  function ParseTail(s: string): (r: Option<Tail>)
    ensures r.Some? ==> WellFormedTail(r.value) && s == RenderTail(r.value)
  {
    match Literal(s, '"')
    case None => None
    case Some(s1) =>
    match Literal(s1, ' ')
    case None => None
    case Some(s2) =>
    match Trailer(s2)
    case None => None
    case Some((forwardedFor, requestId, rbUser, whole, fraction, rest)) =>
    Some(Tail(forwardedFor, requestId, rbUser, whole, fraction, rest))
  }

  /**
   * The backtracking of a greedy `.*`: the largest cut `j <= k` of `body` at
   * which `rest` matches the remainder `body[j..]`, with what it matched.
   */
  function LastMatch<T>(body: string, k: nat, rest: string -> Option<T>): (r: Option<(nat, T)>)
    requires k <= |body|
    ensures r.Some? ==> r.value.0 <= k && rest(body[r.value.0..]) == Some(r.value.1)
    decreases k
  {
    match rest(body[k..])
    case Some(t) => Some((k, t))
    case None => if k == 0 then None else LastMatch(body, k - 1, rest)
  }

  /** No cut at or below `k` where `rest` matches lies beyond the one `LastMatch` finds. */
  lemma {:induction false} LastMatchIsLast<T>(body: string, k: nat, rest: string -> Option<T>, i: nat)
    requires i <= k <= |body|
    requires rest(body[i..]).Some?
    ensures LastMatch(body, k, rest).Some? && i <= LastMatch(body, k, rest).value.0
    decreases k
  {
    if rest(body[k..]).None? {
      LastMatchIsLast(body, k - 1, rest, i);
    }
  }

  lemma CutBefore(body: string, j: nat, x: string)
    requires j <= |body| && body[j..] == x
    ensures body == body[..j] + x
  {
    assert body == body[..j] + body[j..];
  }

  lemma RunPrefix(s: string, k: Class, j: nat)
    requires j <= RunLen(s, k)
    ensures All(s[..j], k)
  {
  }

  /**
   * Splits the text after the user agent's opening quote into the user agent
   * and the tail, cutting as late as the tail allows (the greedy `.*`).
   */
  function ParseBody(body: string): (r: Option<(string, Tail)>)
    ensures r.Some? ==> All(r.value.0, NonNewline) && WellFormedTail(r.value.1)
    ensures r.Some? ==> body == r.value.0 + RenderTail(r.value.1)
  {
    match LastMatch(body, RunLen(body, NonNewline), ParseTail)
    case None => None
    case Some((j, tail)) =>
      CutBefore(body, j, RenderTail(tail));
      RunPrefix(body, NonNewline, j);
      Some((body[..j], tail))
  }

  /** `LOG_RECORD_RE.match(line)`, as the record of its fields. */
  function Parse(line: string): (r: Option<Record>)
    ensures r.Some? ==> Shaped(line, r.value)
  {
    match ParseHead(line)
    case None => None
    case Some((head, body)) =>
      match ParseBody(body)
      case None => None
      case Some((userAgent, tail)) => Some(Record(head, userAgent, tail))
  }

  // ---------------------------------------------------------------------
  // The matcher finds every decomposition's head, and the greedy one
  // ---------------------------------------------------------------------

  lemma ParseHeadOf(h: Head, t: string)
    requires WellFormedHead(h)
    ensures ParseHead(RenderHead(h, t)) == Some((h, t))
  {
    var s4 := RenderQuoted(h.referer, ['"'] + t);
    var s3 := RenderCounters(h.status, h.bytesSent, s4);
    var s2 := RenderRequest(h.verb, h.href, h.protocol, s3);
    var s1 := RenderClock(h.date, h.zone, s2);
    var line := RenderHead(h, t);
    assert line == RenderPeer(h.remoteAddr, h.remoteUser, h.gap, h.realIp, s1);
    PeerOf(h.remoteAddr, h.remoteUser, h.gap, h.realIp, s1);
    assert Peer(line) == Some((h.remoteAddr, h.remoteUser, h.gap, h.realIp, s1));
    ClockOf(h.date, h.zone, s2);
    RequestOf(h.verb, h.href, h.protocol, s3);
    CountersOf(h.status, h.bytesSent, s4);
    QuotedOf(h.referer, ['"'] + t);
    assert Literal(['"'] + t, '"') == Some(t) by {
      assert (['"'] + t)[1..] == t;
    }
    assert h == Head(h.remoteAddr, h.remoteUser, h.gap, h.realIp, h.date, h.zone,
                     h.verb, h.href, h.protocol, h.status, h.bytesSent, h.referer);
  }

  lemma ParseTailOf(t: Tail)
    requires WellFormedTail(t)
    ensures ParseTail(RenderTail(t)) == Some(t)
  {
    var s2 := RenderTrailer(t.forwardedFor, t.requestId, t.rbUser, t.whole, t.fraction, t.rest);
    assert Literal(RenderTail(t), '"') == Some([' '] + s2) by {
      assert RenderTail(t)[1..] == [' '] + s2;
    }
    assert Literal([' '] + s2, ' ') == Some(s2) by {
      assert ([' '] + s2)[1..] == s2;
    }
    TrailerOf(t.forwardedFor, t.requestId, t.rbUser, t.whole, t.fraction, t.rest);
  }

  /**
   * Every decomposition of the line has the head that `Parse` reports, a
   * user agent no longer than the reported one, and is the reported record
   * when its user agent is as long: the match is the greedy one.
   */
  lemma ParseBodyIsLongest(userAgent: string, t: Tail)
    requires All(userAgent, NonNewline) && WellFormedTail(t)
    ensures ParseBody(userAgent + RenderTail(t)).Some?
    ensures |userAgent| <= |ParseBody(userAgent + RenderTail(t)).value.0|
    ensures |userAgent| == |ParseBody(userAgent + RenderTail(t)).value.0| ==>
              ParseBody(userAgent + RenderTail(t)).value == (userAgent, t)
  {
    var body := userAgent + RenderTail(t);
    var k := RunLen(body, NonNewline);
    var u := |userAgent|;
    assert u <= k by {
      assert forall i :: 0 <= i < u ==> body[i] == userAgent[i];
    }
    assert body[u..] == RenderTail(t);
    ParseTailOf(t);
    LastMatchIsLast(body, k, ParseTail, u);
    assert body[..u] == userAgent;
  }

  lemma ParseIsLongestMatch(line: string, r: Record)
    requires Shaped(line, r)
    ensures Parse(line).Some?
    ensures Parse(line).value.head == r.head
    ensures |r.userAgent| <= |Parse(line).value.userAgent|
    ensures |r.userAgent| == |Parse(line).value.userAgent| ==> Parse(line).value == r
  {
    ParseHeadOf(r.head, r.userAgent + RenderTail(r.tail));
    ParseBodyIsLongest(r.userAgent, r.tail);
  }

  /** A line is rejected exactly when it has no decomposition at all. */
  lemma ParseNoneIff(line: string)
    ensures Parse(line).None? <==> forall r :: !Shaped(line, r)
  {
    if r :| Shaped(line, r) {
      ParseIsLongestMatch(line, r);
    }
  }

  /** How many times `c` occurs in `s`. */
  function Occurrences(s: string, c: char): (n: nat)
    ensures n <= |s|
    ensures n == 0 <==> c !in s
  {
    if s == [] then 0
    else (if s[0] == c then 1 else 0) + Occurrences(s[1..], c)
  }

  lemma {:induction false} OccurrencesConcat(a: string, b: string, c: char)
    ensures Occurrences(a + b, c) == Occurrences(a, c) + Occurrences(b, c)
  {
    if a == [] {
      assert a + b == b;
    } else {
      assert (a + b)[1..] == a[1..] + b;
      OccurrencesConcat(a[1..], b, c);
    }
  }

  /** A quoted field holds its two quotes, those inside it, and those after it. */
  lemma QuotedQuotes(w: string, t: string)
    ensures Occurrences(RenderQuoted(w, t), '"') ==
            2 + Occurrences(w, '"') + Occurrences(t, '"')
  {
    OccurrencesConcat(" ", t, '"');
    OccurrencesConcat(['"'], " " + t, '"');
    OccurrencesConcat(w, ['"'] + (" " + t), '"');
    OccurrencesConcat(['"'], w + (['"'] + (" " + t)), '"');
  }

  /** The tail's seven delimiting quotes, plus those inside its fields. */
  lemma TailQuotes(t: Tail)
    requires WellFormedTail(t)
    ensures Occurrences(RenderTail(t), '"') ==
            7 + Occurrences(t.forwardedFor, '"') + Occurrences(t.requestId, '"')
              + Occurrences(t.rbUser, '"') + Occurrences(t.rest, '"')
  {
    var time := RenderTime(t.whole, t.fraction, t.rest);
    OccurrencesConcat(t.fraction, t.rest, '"');
    OccurrencesConcat(".", t.fraction + t.rest, '"');
    OccurrencesConcat(t.whole, "." + (t.fraction + t.rest), '"');
    QuotedQuotes(t.rbUser, time);
    QuotedQuotes(t.requestId, RenderQuoted(t.rbUser, time));
    var trailer := RenderQuoted(t.forwardedFor, RenderQuoted(t.requestId, RenderQuoted(t.rbUser, time)));
    QuotedQuotes(t.forwardedFor, RenderQuoted(t.requestId, RenderQuoted(t.rbUser, time)));
    OccurrencesConcat([' '], trailer, '"');
    OccurrencesConcat(['"'], [' '] + trailer, '"');
  }

  /** A proper suffix of a quote-led text has fewer quotes than the text. */
  lemma SuffixQuotes(s: string, d: nat)
    requires d <= |s| && s != [] && s[0] == '"'
    ensures d == 0 || Occurrences(s[d..], '"') < Occurrences(s, '"')
  {
    if d > 0 {
      assert s[1..] == s[1..d] + s[d..];
      OccurrencesConcat(s[1..d], s[d..], '"');
    }
  }

  /** Two decompositions with the same head agree on the text after it. */
  lemma SameBody(line: string, r: Record, q: Record)
    requires Shaped(line, r) && Shaped(line, q) && r.head == q.head
    ensures r.userAgent + RenderTail(r.tail) == q.userAgent + RenderTail(q.tail)
  {
    ParseHeadOf(r.head, r.userAgent + RenderTail(r.tail));
    ParseHeadOf(q.head, q.userAgent + RenderTail(q.tail));
  }

  lemma LaterCut(a: string, x: string, b: string, y: string)
    requires a + x == b + y && |a| <= |b|
    ensures y == x[|b| - |a|..]
  {
    assert forall i :: 0 <= i < |y| ==> y[i] == (b + y)[|b| + i];
  }

  /** Cutting a quote-led text later leaves fewer quotes after the cut. */
  lemma NoRicherLaterCut(a: string, x: string, b: string, y: string)
    requires a + x == b + y && |a| <= |b|
    requires x != [] && x[0] == '"'
    requires Occurrences(x, '"') <= Occurrences(y, '"')
    ensures |a| == |b|
  {
    LaterCut(a, x, b, y);
    SuffixQuotes(x, |b| - |a|);
  }

  /** A quote-free tail cannot be matched again further along the same text. */
  lemma NoLaterTail(userAgent: string, t: Tail, userAgent': string, t': Tail)
    requires WellFormedTail(t) && WellFormedTail(t')
    requires '"' !in t.forwardedFor && '"' !in t.requestId
    requires '"' !in t.rbUser && '"' !in t.rest
    requires userAgent + RenderTail(t) == userAgent' + RenderTail(t')
    requires |userAgent| <= |userAgent'|
    ensures |userAgent| == |userAgent'|
  {
    TailQuotes(t);
    TailQuotes(t');
    assert RenderTail(t)[0] == '"';
    NoRicherLaterCut(userAgent, RenderTail(t), userAgent', RenderTail(t'));
  }

  /**
   * When no field after the user agent holds a quote, the user agent cannot
   * reach any further, so that decomposition is the one matched.
   */
  lemma ParseOfQuoteFreeTail(line: string, r: Record)
    requires Shaped(line, r)
    requires '"' !in r.tail.forwardedFor && '"' !in r.tail.requestId
    requires '"' !in r.tail.rbUser && '"' !in r.tail.rest
    ensures Parse(line) == Some(r)
  {
    ParseIsLongestMatch(line, r);
    var p := Parse(line).value;
    SameBody(line, r, p);
    NoLaterTail(r.userAgent, r.tail, p.userAgent, p.tail);
  }

  // ---------------------------------------------------------------------
  // process_line
  // ---------------------------------------------------------------------

  /** One parsed line: the requested URL and the request time in milliseconds. */
  datatype Sample = Sample(url: string, millis: nat)

  /** Decimal value of a run of ASCII digits. */
  function DigitsValue(w: string): nat
    requires All(w, Digit)
  {
    if w == [] then 0
    else DigitsValue(w[..|w| - 1]) * 10 + (w[|w| - 1] as int - '0' as int)
  }

  function Pow10(n: nat): (p: nat)
    ensures p >= 1
  {
    if n == 0 then 1 else 10 * Pow10(n - 1)
  }

  /**
   * `round(float(whole + "." + fraction), 3)` in thousandths: the first three
   * fraction digits, rounded half up on the fourth.
   */
  function Millis(whole: string, fraction: string): nat
    requires IsNumber(whole) && IsNumber(fraction)
  {
    var padded := (fraction + "000")[..3];
    var up := if |fraction| > 3 && fraction[3] >= '5' then 1 else 0;
    DigitsValue(whole) * 1000 + DigitsValue(padded) + up
  }

  /** Exact value, in thousandths, of the decimal `whole.fraction` scaled by `10^|fraction|`. */
  function ExactThousandths(whole: string, fraction: string): nat
    requires IsNumber(whole) && IsNumber(fraction)
  {
    1000 * (DigitsValue(whole) * Pow10(|fraction|) + DigitsValue(fraction))
  }

  lemma {:induction false} Pow10Add(a: nat, b: nat)
    ensures Pow10(a + b) == Pow10(a) * Pow10(b)
    decreases b
  {
    if b > 0 {
      Pow10Add(a, b - 1);
      assert Pow10(a + b) == 10 * Pow10(a + b - 1);
    }
  }

  lemma {:induction false} DigitsBound(w: string)
    requires All(w, Digit)
    ensures DigitsValue(w) < Pow10(|w|)
    decreases |w|
  {
    if w != [] {
      DigitsBound(w[..|w| - 1]);
    }
  }

  /** Two runs of one character class written one after another are one run. */
  lemma AllConcat(a: string, b: string, k: Class)
    requires All(a, k) && All(b, k)
    ensures All(a + b, k)
  {
    forall i | 0 <= i < |a + b| ensures In((a + b)[i], k) {
      if i >= |a| { assert (a + b)[i] == b[i - |a|]; }
    }
  }

  lemma ShiftDigit(x: int, p: int, y: int, d: int)
    ensures (x * p + y) * 10 + d == x * (10 * p) + (y * 10 + d)
  {
  }

  /** The value of digits written one after another. */
  lemma {:induction false} DigitsConcat(a: string, b: string)
    requires All(a, Digit) && All(b, Digit)
    ensures All(a + b, Digit)
    ensures DigitsValue(a + b) == DigitsValue(a) * Pow10(|b|) + DigitsValue(b)
    decreases |b|
  {
    AllConcat(a, b, Digit);
    if b == [] {
      assert a + b == a;
    } else {
      var b' := b[..|b| - 1];
      assert (a + b)[..|a + b| - 1] == a + b';
      DigitsConcat(a, b');
      ShiftDigit(DigitsValue(a), Pow10(|b'|), DigitsValue(b'), b[|b| - 1] as int - '0' as int);
    }
  }

  lemma {:induction false} ZerosValue(z: string)
    requires forall i :: 0 <= i < |z| ==> z[i] == '0'
    ensures All(z, Digit) && DigitsValue(z) == 0
    decreases |z|
  {
    if z != [] {
      ZerosValue(z[..|z| - 1]);
    }
  }

  lemma PaddedScale(w: int, f: int, a: int, b: int)
    requires a * b == 1000
    ensures (w * 1000 + f * a) * b == 1000 * (w * b + f)
  {
    assert (w * 1000 + f * a) * b == w * 1000 * b + f * (a * b);
  }

  /** With at most three fraction digits the time in thousandths is exact. */
  lemma MillisExact(whole: string, fraction: string)
    requires IsNumber(whole) && IsNumber(fraction) && |fraction| <= 3
    ensures Millis(whole, fraction) * Pow10(|fraction|) == ExactThousandths(whole, fraction)
  {
    var n := |fraction|;
    assert Millis(whole, fraction) == DigitsValue(whole) * 1000 + DigitsValue(fraction) * Pow10(3 - n) by {
      var zeros := "000"[..3 - n];
      ZerosValue(zeros);
      assert (fraction + "000")[..3] == fraction + zeros;
      DigitsConcat(fraction, zeros);
    }
    assert Pow10(3 - n) * Pow10(n) == 1000 by {
      Pow10Add(3 - n, n);
      assert Pow10(3) == 1000;
    }
    PaddedScale(DigitsValue(whole), DigitsValue(fraction), Pow10(3 - n), Pow10(n));
  }

  lemma MulMono(a: int, b: int, u: int)
    requires a <= b && u >= 0
    ensures a * u <= b * u
  {
  }

  /**
   * The error of rounding up exactly when the fourth digit `c` is at least 5,
   * `u` being the place value of that digit and `q < u` what follows it.
   */
  lemma RoundingError(c: int, q: int, u: int, up: int)
    requires 0 <= c <= 9 && 0 <= q < u
    requires up == if c >= 5 then 1 else 0
    ensures -(10000 * u) < 2 * (up * (10000 * u) - 1000 * (c * u + q)) <= 10000 * u
  {
    if c >= 5 {
      MulMono(5, c, u);
      MulMono(c, 9, u);
    } else {
      MulMono(0, c, u);
      MulMono(c, 4, u);
    }
  }

  lemma RoundingIdentity(w: int, h: int, up: int, u: int, c: int, q: int)
    ensures (w * 1000 + h + up) * (10000 * u) - 1000 * (w * (10000 * u) + (h * (10 * u) + (c * u + q)))
         == up * (10000 * u) - 1000 * (c * u + q)
  {
    assert (w * 1000 + h + up) * (10000 * u)
        == w * 1000 * (10000 * u) + h * (10000 * u) + up * (10000 * u);
    assert 1000 * (h * (10 * u)) == h * (10000 * u);
  }

  lemma TimesThousand(p: int, a: int, b: int, u: int)
    requires p == a * b && a == 1000 && b == 10 * u
    ensures p == 10000 * u
  {
  }

  lemma RoundingBound(m: int, p: int, f: int, e: int,
                      w: int, h: int, up: int, u: int, c: int, q: int)
    requires 0 <= c <= 9 && 0 <= q < u
    requires up == if c >= 5 then 1 else 0
    requires m == w * 1000 + h + up && p == 10000 * u
    requires f == h * (10 * u) + (c * u + q) && e == 1000 * (w * p + f)
    ensures -p < 2 * (m * p - e) <= p
  {
    RoundingIdentity(w, h, up, u, c, q);
    RoundingError(c, q, u, up);
  }

  /**
   * With more fraction digits the time is rounded to the nearest thousandth,
   * a tie going up: the error is above minus one half and at most one half.
   */
  lemma MillisRounding(whole: string, fraction: string)
    requires IsNumber(whole) && IsNumber(fraction)
    ensures -(Pow10(|fraction|) as int)
            < 2 * (Millis(whole, fraction) * Pow10(|fraction|) - ExactThousandths(whole, fraction))
            <= Pow10(|fraction|)
  {
    var n := |fraction|;
    if n <= 3 {
      MillisExact(whole, fraction);
    } else {
      var u := Pow10(n - 4);
      var w := DigitsValue(whole);
      var h := DigitsValue(fraction[..3]);
      var c := fraction[3] as int - '0' as int;
      var q := DigitsValue(fraction[4..]);
      var up := if c >= 5 then 1 else 0;
      FourthDigitSplit(fraction);
      assert Millis(whole, fraction) == w * 1000 + h + up by {
        assert (fraction + "000")[..3] == fraction[..3];
      }
      RoundingBound(Millis(whole, fraction), Pow10(n), DigitsValue(fraction),
                    ExactThousandths(whole, fraction), w, h, up, u, c, q);
    }
  }

  /** A fraction of more than three digits: its first three, its fourth, and the rest. */
  lemma FourthDigitSplit(fraction: string)
    requires IsNumber(fraction) && |fraction| > 3
    ensures var u := Pow10(|fraction| - 4);
      && Pow10(|fraction|) == 10000 * u
      && DigitsValue(fraction[4..]) < u
      && DigitsValue(fraction) == DigitsValue(fraction[..3]) * (10 * u)
           + ((fraction[3] as int - '0' as int) * u + DigitsValue(fraction[4..]))
  {
    var n := |fraction|;
    var u := Pow10(n - 4);
    assert Pow10(n) == 10000 * u by {
      Pow10Add(3, n - 3);
      assert Pow10(3) == 1000;
      assert Pow10(n - 3) == 10 * u;
      TimesThousand(Pow10(n), Pow10(3), Pow10(n - 3), u);
    }
    DigitsBound(fraction[4..]);
    var head := fraction[..3];
    var rest := fraction[4..];
    var digit := [fraction[3]];
    var c := fraction[3] as int - '0' as int;
    assert DigitsValue(digit + rest) == c * u + DigitsValue(rest) by {
      DigitsConcat(digit, rest);
      assert DigitsValue(digit) == c by {
        assert digit[..0] == [];
      }
    }
    assert fraction == head + (digit + rest);
    DigitsConcat(head, digit + rest);
    SubstituteScale(DigitsValue(fraction), DigitsValue(head), Pow10(n - 3),
                    DigitsValue(digit + rest), u);
  }

  lemma SubstituteScale(v: int, h: int, p: int, d: int, u: int)
    requires v == h * p + d && p == 10 * u
    ensures v == h * (10 * u) + d
  {
  }

  /** `process_line`: the URL and rounded time of a matching line, `None` otherwise. */
  function ProcessLine(line: string): (r: Option<Sample>)
    ensures r.Some? ==> IsWord(r.value.url)
  {
    match Parse(line)
    case None => None
    case Some(rec) => Some(Sample(rec.head.href, Millis(rec.tail.whole, rec.tail.fraction)))
  }

  /** A line yields nothing exactly when the pattern does not match it. */
  lemma ProcessLineNoneIff(line: string)
    ensures ProcessLine(line).None? <==> forall rec :: !Shaped(line, rec)
  {
    ParseNoneIff(line);
  }

  /** The URL a matching line yields is the href of every decomposition of that line. */
  lemma ProcessLineUrl(line: string, rec: Record)
    requires Shaped(line, rec)
    ensures ProcessLine(line).Some? && ProcessLine(line).value.url == rec.head.href
  {
    ParseIsLongestMatch(line, rec);
  }

  /**
   * A line laid out from a record whose fields after the user agent hold no
   * quote yields that record's href and its request time in thousandths.
   */
  lemma ProcessLineOfRecord(r: Record)
    requires WellFormed(r)
    requires '"' !in r.tail.forwardedFor && '"' !in r.tail.requestId
    requires '"' !in r.tail.rbUser && '"' !in r.tail.rest
    ensures ProcessLine(Render(r)) == Some(Sample(r.head.href, Millis(r.tail.whole, r.tail.fraction)))
  {
    ParseOfQuoteFreeTail(Render(r), r);
  }

  /** Every line the pattern matches holds a space. */
  lemma RenderHasSpace(r: Record)
    ensures ' ' in Render(r)
  {
    assert Render(r)[|r.head.remoteAddr|] == ' ';
  }

  /** A line without a space is rejected. */
  lemma NoSpaceNoMatch(line: string)
    requires ' ' !in line
    ensures ProcessLine(line) == None
  {
    forall r | true
      ensures !Shaped(line, r)
    {
      RenderHasSpace(r);
    }
    ProcessLineNoneIff(line);
  }

  /** The rejected line of the test suite. */
  lemma ProcessIncorrectLine()
    ensures ProcessLine("abcde") == None
  {
    NoSpaceNoMatch("abcde");
  }

  /** The request time `0.060` of the test suite is 60 thousandths. */
  lemma SixtyMillis()
    ensures Millis("0", "060") == 60
  {
    assert ("060" + "000")[..3] == "060";
    assert "060"[..2] == "06" && "06"[..1] == "0" && "0"[..0] == [];
  }
}
