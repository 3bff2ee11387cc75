/**
 The WeChat channel's certificate cache, its answer verification and its download throttle.

 The certificate map, the certificates being installed, the requests in flight and the download stamp
 form a state machine driven by notifications, answers and timers in any order; the class at the end
 performs the channel's own operations on it. OpenSSL, base64, AES-GCM and the JSON reader are the
 function parameters of `Env`; clock readings and file contents come with the events.
 */
module WechatChannel {
  import opened JsonValues
  import opened Options
  import opened SerialNumbers

  type Instant = int  // nanoseconds of the monotonic clock for downloads, seconds for validity

  const NANOS_PER_SECOND := 1_000_000_000

  datatype X509 = X509(serialText: Option<string>, notBefore: Instant, notAfter: Instant, publicKey: Option<nat>)

  datatype Env = Env(
    readCert: string -> Option<X509>,
    decode: string -> string,
    verifies: (nat, string, string) -> bool,
    decrypt: (string, string, string) -> Option<string>,
    parseJson: string -> (bool, Json))

  function ParseCert(env: Env, content: string): Option<X509> {
    if content == "" then None else env.readCert(content)
  }

  predicate WithinValidity(cert: X509, now: Instant) {
    cert.notBefore <= now < cert.notAfter
  }

  // A certificate's own serial in canonical spelling; empty when it has none to read.
  function CertificateSerial(env: Env, content: string): string {
    match ParseCert(env, content)
    case None => ""
    case Some(cert) => if cert.serialText == None then "" else Canonical(cert.serialText.value)
  }

  // ------------------------------------------------------------------ the certificate cache

  type Cache = map<string, string>

  // The checks of setPlatformCert: the key to file the certificate under, if it passes them.
  function CheckedSerial(env: Env, serialNo: string, content: string, now: Instant, anchored: bool): Option<string> {
    var actual := CertificateSerial(env, content);
    if serialNo == "" || ParseCert(env, content) == None then None
    else if !WithinValidity(ParseCert(env, content).value, now) then None
    else if actual == "" || actual != Canonical(serialNo) then None
    else if !anchored then None
    else Some(actual)
  }

  // The certificate reads as one in validity at this moment, and its own serial is canonically `key`.
  predicate ValidUnder(env: Env, content: string, now: Instant, key: string) {
    && content != "" && env.readCert(content).Some?
    && var cert := env.readCert(content).value;
       && cert.notBefore <= now < cert.notAfter
       && cert.serialText.Some? && Canonical(cert.serialText.value) == key != ""
  }

  // The checks pass exactly for an anchored certificate in validity that carries the serial it is offered for.
  lemma ChecksExactly(env: Env, serialNo: string, content: string, now: Instant, anchored: bool)
    ensures CheckedSerial(env, serialNo, content, now, anchored)
         == if serialNo != "" && anchored && ValidUnder(env, content, now, Canonical(serialNo))
            then Some(Canonical(serialNo)) else None
  {
  }

  function Lookup(cache: Cache, serialNo: string): string {
    if Canonical(serialNo) in cache then cache[Canonical(serialNo)] else ""
  }

  // A certificate filed under one serial is found under exactly the serials of the same canonical spelling.
  lemma FiledCertsAreFound(cache: Cache, serialNo: string, content: string, asked: string)
    ensures Lookup(cache[Canonical(serialNo) := content], asked)
         == if Canonical(asked) == Canonical(serialNo) then content else Lookup(cache, asked)
    ensures Lookup(map[], asked) == ""
  {
  }

  // The statically deployed certificate file, as it reads when it is consulted.
  datatype StaticFile = NotConfigured | ReadFails(error: string) | Contents(text: string)

  datatype Reason =
    | MissingHeaders | MissingSerial | SerialTooLong
    | StaticFileUnreadable(error: string) | NoTrustedCert(serial: string)
    | UnreadableCert | NotYetValid | Expired | NoPublicKey | UndecodableSignature | WrongSignature
    | ClientDestroyed

  datatype Resolution = Found(content: string) | Missing(reason: Reason)

  const MAX_SERIAL_LENGTH := 64

  function Resolve(env: Env, cache: Cache, serialNo: string, file: StaticFile): Resolution {
    if serialNo == "" then Missing(MissingSerial)
    else if |serialNo| > MAX_SERIAL_LENGTH then Missing(SerialTooLong)
    else if Lookup(cache, serialNo) != "" then Found(Lookup(cache, serialNo))
    else if file.ReadFails? then Missing(StaticFileUnreadable(file.error))
    else if file.Contents? && CertificateSerial(env, file.text) == Canonical(serialNo) then Found(file.text)
    else Missing(NoTrustedCert(serialNo))
  }

  // The file is consulted: nothing usable is cached under a serial of admissible length.
  predicate Consults(cache: Cache, serialNo: string) {
    0 < |serialNo| <= MAX_SERIAL_LENGTH && (Canonical(serialNo) in cache ==> cache[Canonical(serialNo)] == "")
  }

  predicate FileCarries(env: Env, file: StaticFile, serialNo: string) {
    && file.Contents? && file.text != "" && env.readCert(file.text).Some?
    && var text := env.readCert(file.text).value.serialText; text.Some? && Canonical(text.value) == Canonical(serialNo)
  }

  // A certificate is trusted exactly when one is cached under the serial or, failing that, the file carries it.
  lemma ResolvesExactly(env: Env, cache: Cache, serialNo: string, file: StaticFile)
    ensures var r, key := Resolve(env, cache, serialNo, file), Canonical(serialNo);
      && (r == Missing(MissingSerial) <==> serialNo == "")
      && (r == Missing(SerialTooLong) <==> |serialNo| > MAX_SERIAL_LENGTH)
      && (0 < |serialNo| <= MAX_SERIAL_LENGTH && !Consults(cache, serialNo) ==> r == Found(cache[key]))
      && (Consults(cache, serialNo) && FileCarries(env, file, serialNo) ==> r == Found(file.text))
      && (Consults(cache, serialNo) && !FileCarries(env, file, serialNo) ==>
            r == Missing(if file.ReadFails? then StaticFileUnreadable(file.error) else NoTrustedCert(serialNo)))
  {
    TrimIsNotEmpty(Upper(serialNo));
  }

  // ------------------------------------------------------------------ answers

  datatype Answer = Answer(
    status: int, timestamp: string, nonce: string, signature: string, serial: string, body: string)

  datatype Reply = TransportFailure(timedOut: bool) | Received(answer: Answer)

  datatype Failure =
    | NoFailure
    | TimedOut
    | TransportFailed
    | Unverified(reason: Reason)
    | HttpStatus(status: int, detail: string)
    | InvalidJson

  // What the caller of a request is called back with.
  datatype Outcome = Outcome(body: Json, failure: Failure)

  function Framed(timestamp: string, nonce: string, body: string): string {
    timestamp + "\n" + nonce + "\n" + body + "\n"
  }

  // Why the message does not verify under the certificate; None when it does.
  function VerifyMessage(env: Env, text: string, signature: string, content: string, now: Instant): Option<Reason> {
    match ParseCert(env, content)
    case None => Some(UnreadableCert)
    case Some(cert) =>
      if now < cert.notBefore then Some(NotYetValid)
      else if cert.notAfter <= now then Some(Expired)
      else if cert.publicKey == None then Some(NoPublicKey)
      else if env.decode(signature) == "" then Some(UndecodableSignature)
      else if !env.verifies(cert.publicKey.value, text, env.decode(signature)) then Some(WrongSignature)
      else None
  }

  // The certificate can judge a message at this moment: it reads, is in validity and has a key.
  predicate CanJudge(env: Env, content: string, now: Instant) {
    && content != "" && env.readCert(content).Some?
    && var cert := env.readCert(content).value; cert.notBefore <= now < cert.notAfter && cert.publicKey.Some?
  }

  // A message verifies exactly when such a certificate's key verifies the signature, which is not empty once
  // decoded; otherwise the reason tells the first thing that failed.
  lemma VerifiesExactly(env: Env, text: string, signature: string, content: string, now: Instant)
    ensures var r, decoded := VerifyMessage(env, text, signature, content, now), env.decode(signature);
      && (r == Some(UnreadableCert) <==> content == "" || env.readCert(content) == None)
      && (CanJudge(env, content, now) && decoded == "" ==> r == Some(UndecodableSignature))
      && (CanJudge(env, content, now) && decoded != "" ==>
            var verified := env.verifies(env.readCert(content).value.publicKey.value, text, decoded);
            r == if verified then None else Some(WrongSignature))
    ensures content != "" && env.readCert(content).Some? ==>
      var r, cert := VerifyMessage(env, text, signature, content, now), env.readCert(content).value;
      && (r == Some(NotYetValid) <==> now < cert.notBefore)
      && (r == Some(Expired) <==> cert.notBefore <= now && cert.notAfter <= now)
      && (r == Some(NoPublicKey) <==> cert.notBefore <= now < cert.notAfter && cert.publicKey == None)
  {
  }

  predicate HeadersPresent(a: Answer) {
    a.timestamp != "" && a.nonce != "" && a.signature != ""
  }

  // The code and message of an error envelope; None where reading them throws.
  function Envelope(json: Json): Option<string> {
    match (ReadText(json, "code"), ReadText(json, "message"))
    case (Some(code), Some(message)) => Some(code + " " + message)
    case _ => None
  }

  function ErrorDetail(parsed: bool, json: Json): Option<string> {
    var detail := if parsed then Envelope(json) else Some("");
    if detail == Some("") || detail == Some(" ") then Some("no error envelope") else detail
  }

  // The outcome of an answer that may be read; None where reading it throws.
  function ReadAnswer(env: Env, a: Answer): Option<Outcome> {
    if a.status == 204 then Some(Outcome(Object(map[]), NoFailure))
    else
      var (parsed, json) := env.parseJson(a.body);
      if a.status < 200 || a.status >= 300 then
        match ErrorDetail(parsed, json)
        case None => None
        case Some(detail) => Some(Outcome(json, HttpStatus(a.status, detail)))
      else if !parsed then Some(Outcome(json, InvalidJson))
      else Some(Outcome(json, NoFailure))
  }

  // An error answer whose body parses and then has no members, or a code or message that is an array or an
  // object.
  predicate Faults(env: Env, a: Answer) {
    var (parsed, json) := env.parseJson(a.body);
    && (a.status < 200 || a.status >= 300) && parsed
    && (!HasMembers(json) || HoldsComposite(json, "code") || HoldsComposite(json, "message"))
  }

  lemma ReadingFaults(env: Env, a: Answer)
    ensures ReadAnswer(env, a) == None <==> Faults(env, a)
  {
    var (parsed, json) := env.parseJson(a.body);
    ReadTextThrows(json, "code");
    ReadTextThrows(json, "message");
  }

  // What a caller learns from an answer: a failure with its very status and what its envelope shows outside
  // 200 to 299, a success only from an empty answer or a body that parses, and the body as it was parsed.
  predicate Reports(env: Env, a: Answer, outcome: Outcome) {
    var (parsed, json) := env.parseJson(a.body);
    var code, message, accepted := Shown(json, "code"), Shown(json, "message"), 200 <= a.status <= 299;
    && (outcome.failure == NoFailure <==> a.status == 204 || (accepted && parsed))
    && (outcome.failure == InvalidJson <==> accepted && a.status != 204 && !parsed)
    && (outcome.failure.HttpStatus? <==> !accepted)
    && (!accepted && parsed && (code != "" || message != "") ==>
          outcome.failure == HttpStatus(a.status, code + " " + message))
    && (!accepted && (!parsed || code == "" == message) ==>
          outcome.failure == HttpStatus(a.status, "no error envelope"))
    && outcome.body == if a.status == 204 then Object(map[]) else json
  }

  // Reading an answer reports it, or throws where it faults.
  lemma AnswersReportExactly(env: Env, a: Answer, outcome: Outcome)
    ensures ReadAnswer(env, a) == Some(outcome) <==> !Faults(env, a) && Reports(env, a, outcome)
  {
    var (parsed, json) := env.parseJson(a.body);
    ReadingFaults(env, a);
    ReadTextShows(json, "code");
    ReadTextShows(json, "message");
    var code, message := Shown(json, "code"), Shown(json, "message");
    assert |code + " " + message| == |code| + 1 + |message|;
    assert code == "" == message ==> code + " " + message == " ";
  }

  function Dropped(reason: Reason): Outcome {
    Outcome(Null, Unverified(reason))
  }

  function Judge(env: Env, a: Answer, content: string, now: Instant): Option<Outcome> {
    match VerifyMessage(env, Framed(a.timestamp, a.nonce, a.body), a.signature, content, now)
    case Some(reason) => Some(Dropped(reason))
    case None => ReadAnswer(env, a)
  }

  // ------------------------------------------------------------------ the state machine

  datatype Phase =
    | Sent(verifying: bool)
    | Answered(answer: Answer)
    | Holding(answer: Answer, content: string)
    | Finished
    | Lost  // its handler threw before the callback

  // The certificate map and the certificates checked but not yet installed.
  datatype Certs = Certs(cache: Cache, installs: map<nat, (string, string)>)

  // The requests in flight and every callback made so far.
  datatype Requests = Requests(phases: map<nat, Phase>, log: seq<(nat, Outcome)>)

  datatype State = State(certs: Certs, requests: Requests, stamp: Instant)

  datatype Event =
    | CheckCert(id: nat, serialNo: string, content: string, now: Instant, anchored: bool)
    | InstallCert(id: nat)
    | Send(id: nat, verifying: bool)
    | Receive(id: nat, reply: Reply)
    | ClientGone(id: nat)
    | ResolveCert(id: nat, file: StaticFile)
    | VerifyAnswer(id: nat, now: Instant)
    | Download(signed: bool, now: Instant)

  predicate Enabled(s: State, e: Event) {
    var phases := s.requests.phases;
    match e
    case CheckCert(id, _, _, _, _) => id !in s.certs.installs
    case InstallCert(id) => id in s.certs.installs
    case Send(id, _) => id !in phases
    case Receive(id, _) => id in phases && phases[id].Sent?
    case ClientGone(id) => id in phases && phases[id].Answered?
    case ResolveCert(id, _) => id in phases && phases[id].Answered?
    case VerifyAnswer(id, _) => id in phases && phases[id].Holding?
    case Download(_, _) => true
  }

  function NextCerts(env: Env, s: State, e: Event): Certs
    requires Enabled(s, e)
  {
    var certs := s.certs;
    match e
    case CheckCert(id, serialNo, content, now, anchored) =>
      var key := CheckedSerial(env, serialNo, content, now, anchored);
      if key == None then certs else certs.(installs := certs.installs[id := (key.value, content)])
    case InstallCert(id) =>
      var (key, content) := certs.installs[id];
      Certs(certs.cache[key := content], certs.installs - {id})
    case _ => certs
  }

  function CallBack(r: Requests, id: nat, outcome: Outcome): Requests {
    Requests(r.phases[id := Finished], r.log + [(id, outcome)])
  }

  function Move(r: Requests, id: nat, phase: Phase): Requests {
    r.(phases := r.phases[id := phase])
  }

  // The end of a handler: its callback, or an exception that escapes it.
  function Conclude(r: Requests, id: nat, outcome: Option<Outcome>): Requests {
    if outcome == None then Move(r, id, Lost) else CallBack(r, id, outcome.value)
  }

  function Transport(timedOut: bool): Outcome {
    Outcome(Null, if timedOut then TimedOut else TransportFailed)
  }

  function NextRequests(env: Env, s: State, e: Event): Requests
    requires Enabled(s, e)
  {
    var r := s.requests;
    match e
    case Send(id, verifying) => Move(r, id, Sent(verifying))
    case Receive(id, reply) =>
      if reply.TransportFailure? then CallBack(r, id, Transport(reply.timedOut))
      else if r.phases[id].verifying then Move(r, id, Answered(reply.answer))
      else Conclude(r, id, ReadAnswer(env, reply.answer))
    case ClientGone(id) => CallBack(r, id, Dropped(ClientDestroyed))
    case ResolveCert(id, file) =>
      var a := r.phases[id].answer;
      var resolution := Resolve(env, s.certs.cache, a.serial, file);
      if !HeadersPresent(a) then CallBack(r, id, Dropped(MissingHeaders))
      else if resolution.Missing? then CallBack(r, id, Dropped(resolution.reason))
      else Move(r, id, Holding(a, resolution.content))
    case VerifyAnswer(id, now) => Conclude(r, id, Judge(env, r.phases[id].answer, r.phases[id].content, now))
    case _ => r
  }

  // std::chrono::duration_cast truncates toward zero.
  function WholeSeconds(d: Instant): int {
    if d >= 0 then d / NANOS_PER_SECOND else -((-d) / NANOS_PER_SECOND)
  }

  // An attempt that signed its request spends the window unless the last stamp is too recent; a zero
  // stamp means that there was none.
  predicate Accepts(minInterval: int, stamp: Instant, signed: bool, now: Instant) {
    signed && (stamp == 0 || WholeSeconds(now - stamp) >= minInterval)
  }

  function NextStamp(minInterval: int, stamp: Instant, e: Event): Instant {
    if e.Download? && Accepts(minInterval, stamp, e.signed, e.now) then e.now else stamp
  }

  function Next(env: Env, minInterval: int, s: State, e: Event): State
    requires Enabled(s, e)
  {
    State(NextCerts(env, s, e), NextRequests(env, s, e), NextStamp(minInterval, s.stamp, e))
  }

  ghost predicate IsRun(env: Env, minInterval: int, ss: seq<State>, es: seq<Event>) {
    && |ss| == |es| + 1
    && ss[0] == State(Certs(map[], map[]), Requests(map[], []), 0)
    && forall i :: 0 <= i < |es| ==> Enabled(ss[i], es[i]) && ss[i + 1] == Next(env, minInterval, ss[i], es[i])
  }

  // ------------------------------------------------------------------ what the cache holds

  // Event i checked this certificate and found it in validity, anchored, and carrying the serial that
  // is canonically `key`.
  ghost predicate CheckedAt(env: Env, es: seq<Event>, i: nat, key: string, content: string) {
    && i < |es| && es[i].CheckCert? && es[i].content == content && es[i].anchored
    && ValidUnder(env, content, es[i].now, key) && Canonical(es[i].serialNo) == key
  }

  lemma {:induction false} InstallsWereChecked(env: Env, m: int, ss: seq<State>, es: seq<Event>, n: nat, id: nat)
    returns (i: nat)
    requires IsRun(env, m, ss, es) && n <= |es| && id in ss[n].certs.installs
    ensures i < n && CheckedAt(env, es, i, ss[n].certs.installs[id].0, ss[n].certs.installs[id].1)
  {
    assert ss[n] == Next(env, m, ss[n - 1], es[n - 1]);
    if id in ss[n - 1].certs.installs {
      i := InstallsWereChecked(env, m, ss, es, n - 1, id);
    } else {
      i := n - 1;
    }
  }

  // Every cached certificate was checked before it was installed, and its own serial is its key.
  lemma {:induction false} CachedCertsWereChecked(
    env: Env, m: int, ss: seq<State>, es: seq<Event>, n: nat, key: string)
    returns (i: nat)
    requires IsRun(env, m, ss, es) && n <= |es| && key in ss[n].certs.cache
    ensures i < n && CheckedAt(env, es, i, key, ss[n].certs.cache[key])
  {
    var e := es[n - 1];
    assert ss[n] == Next(env, m, ss[n - 1], e);
    if e.InstallCert? && ss[n - 1].certs.installs[e.id].0 == key {
      i := InstallsWereChecked(env, m, ss, es, n - 1, e.id);
    } else {
      i := CachedCertsWereChecked(env, m, ss, es, n - 1, key);
    }
  }

  // An entry never disappears, and whatever replaces it carries the same serial.
  lemma {:induction false} EntriesKeepTheirSerial(
    env: Env, m: int, ss: seq<State>, es: seq<Event>, i: nat, n: nat, key: string)
    requires IsRun(env, m, ss, es) && i <= n <= |es| && key in ss[i].certs.cache
    ensures key in ss[n].certs.cache
    ensures CertificateSerial(env, ss[n].certs.cache[key]) == CertificateSerial(env, ss[i].certs.cache[key]) == key
    decreases n - i
  {
    if i < n {
      assert ss[i + 1] == Next(env, m, ss[i], es[i]);
      EntriesKeepTheirSerial(env, m, ss, es, i + 1, n, key);
    } else {
      var c := CachedCertsWereChecked(env, m, ss, es, n, key);
    }
    var c := CachedCertsWereChecked(env, m, ss, es, i, key);
  }

  // Two header spellings find the same entry of a cache that holds either exactly when they denote
  // the same number.
  lemma SpellingsShareAnEntry(
    env: Env, m: int, ss: seq<State>, es: seq<Event>, n: nat, a: string, b: string)
    requires IsRun(env, m, ss, es) && n <= |es| && IsHex(a) && IsHex(b)
    requires Lookup(ss[n].certs.cache, a) != "" || Lookup(ss[n].certs.cache, b) != ""
    ensures Lookup(ss[n].certs.cache, a) == Lookup(ss[n].certs.cache, b) <==> HexValue(a) == HexValue(b)
  {
    CanonicalIffSameNumber(a, b);
    var cache := ss[n].certs.cache;
    if Lookup(cache, a) == Lookup(cache, b) {
      var i := CachedCertsWereChecked(env, m, ss, es, n, Canonical(a));
      var j := CachedCertsWereChecked(env, m, ss, es, n, Canonical(b));
    }
  }

  // Whatever certificate is trusted for a serial carries that serial itself.
  lemma ResolvedCertsCarryTheSerial(
    env: Env, m: int, ss: seq<State>, es: seq<Event>, n: nat, serialNo: string, file: StaticFile)
    requires IsRun(env, m, ss, es) && n <= |es| && Resolve(env, ss[n].certs.cache, serialNo, file).Found?
    ensures CertificateSerial(env, Resolve(env, ss[n].certs.cache, serialNo, file).content) == Canonical(serialNo)
    ensures || Canonical(serialNo) in ss[n].certs.cache
            || file == Contents(Resolve(env, ss[n].certs.cache, serialNo, file).content)
  {
    if Canonical(serialNo) in ss[n].certs.cache {
      var i := CachedCertsWereChecked(env, m, ss, es, n, Canonical(serialNo));
    }
  }

  // ------------------------------------------------------------------ verified answers only

  lemma FirstLine(a: string, rest: string, a': string, rest': string)
    requires '\n' !in a && '\n' !in a' && a + ("\n" + rest) == a' + ("\n" + rest')
    ensures a == a' && rest == rest'
  {
    var x, y := a + ("\n" + rest), a' + ("\n" + rest');
    assert x[|a|] == '\n' && y[|a'|] == '\n';
    assert forall i :: 0 <= i < |a| ==> x[i] == a[i];
    assert forall i :: 0 <= i < |a'| ==> y[i] == a'[i];
    assert a == x[..|a|] && a' == y[..|a'|];
    assert rest == x[|a| + 1..] && rest' == y[|a'| + 1..];
  }

  // The signed text determines its three parts when neither header holds a newline.
  lemma FramingIsInjective(t: string, n: string, b: string, t': string, n': string, b': string)
    requires '\n' !in t && '\n' !in n && '\n' !in t' && '\n' !in n'
    requires Framed(t, n, b) == Framed(t', n', b')
    ensures t == t' && n == n' && b == b'
  {
    var r, r' := n + ("\n" + (b + "\n")), n' + ("\n" + (b' + "\n"));
    assert Framed(t, n, b) == t + ("\n" + r) && Framed(t', n', b') == t' + ("\n" + r');
    FirstLine(t, r, t', r');
    FirstLine(n, b + "\n", n', b' + "\n");
    assert b == (b + "\n")[..|b|] && b' == (b' + "\n")[..|b'|];
  }

  // The answer request `id` is about to be judged on was received at r and resolved at q.
  ghost predicate ResolvedAt(
    env: Env, ss: seq<State>, es: seq<Event>, r: nat, q: nat, id: nat, a: Answer, content: string)
  {
    && r < q < |es| < |ss| && es[r] == Receive(id, Received(a))
    && a.timestamp != "" && a.nonce != "" && a.signature != ""
    && es[q].ResolveCert? && es[q].id == id
    && Resolve(env, ss[q].certs.cache, a.serial, es[q].file) == Found(content)
  }

  lemma {:induction false} AnswersWereReceived(
    env: Env, m: int, ss: seq<State>, es: seq<Event>, n: nat, id: nat)
    returns (r: nat)
    requires IsRun(env, m, ss, es) && n <= |es| && id in ss[n].requests.phases && ss[n].requests.phases[id].Answered?
    ensures r < n && es[r] == Receive(id, Received(ss[n].requests.phases[id].answer))
  {
    assert ss[n] == Next(env, m, ss[n - 1], es[n - 1]);
    if id in ss[n - 1].requests.phases && ss[n - 1].requests.phases[id].Answered? {
      r := AnswersWereReceived(env, m, ss, es, n - 1, id);
    } else {
      r := n - 1;
    }
  }

  // The one way a request comes to hold a certificate.
  lemma HoldsOnceResolved(env: Env, s: State, e: Event, id: nat)
    requires Enabled(s, e)
    requires id in NextRequests(env, s, e).phases && NextRequests(env, s, e).phases[id].Holding?
    ensures id in s.requests.phases
    ensures var before, after := s.requests.phases[id], NextRequests(env, s, e).phases[id];
      || before == after
      || (before == Answered(after.answer) && e.ResolveCert? && e.id == id && HeadersPresent(after.answer)
          && Resolve(env, s.certs.cache, after.answer.serial, e.file) == Found(after.content))
  {
  }

  lemma {:induction false} HeldCertsWereResolved(
    env: Env, m: int, ss: seq<State>, es: seq<Event>, n: nat, id: nat)
    returns (r: nat, q: nat)
    requires IsRun(env, m, ss, es) && n <= |es| && id in ss[n].requests.phases && ss[n].requests.phases[id].Holding?
    ensures var held := ss[n].requests.phases[id];
      q < n && ResolvedAt(env, ss, es, r, q, id, held.answer, held.content)
  {
    assert ss[n].requests == NextRequests(env, ss[n - 1], es[n - 1]);
    HoldsOnceResolved(env, ss[n - 1], es[n - 1], id);
    if ss[n - 1].requests.phases[id].Holding? {
      r, q := HeldCertsWereResolved(env, m, ss, es, n - 1, id);
    } else {
      q := n - 1;
      r := AnswersWereReceived(env, m, ss, es, n - 1, id);
    }
  }

  predicate IsSettled(phase: Phase) {
    phase.Finished? || phase.Lost?
  }

  // Request `id` was issued with an answer verifier (or, for the certificate bootstrap, without one).
  ghost predicate SentAs(es: seq<Event>, n: nat, id: nat, verifying: bool) {
    exists i :: 0 <= i < n <= |es| && es[i] == Send(id, verifying)
  }

  // How the requests fit what was sent: issued once, and only a verifying one waits for a certificate.
  ghost predicate FitsSent(es: seq<Event>, n: nat, r: Requests, id: nat, verifying: bool) {
    && (SentAs(es, n, id, verifying) ==>
          && id in r.phases
          && (r.phases[id].Sent? ==> r.phases[id].verifying == verifying)
          && (!verifying ==> r.phases[id].Sent? || IsSettled(r.phases[id])))
    && (id in r.phases ==> SentAs(es, n, id, true) || SentAs(es, n, id, false))
  }

  lemma StepFitsSent(env: Env, s: State, es: seq<Event>, n: nat, id: nat, verifying: bool)
    requires n < |es| && Enabled(s, es[n])
    requires FitsSent(es, n, s.requests, id, verifying) && FitsSent(es, n, s.requests, id, !verifying)
    ensures FitsSent(es, n + 1, NextRequests(env, s, es[n]), id, verifying)
  {
  }

  lemma {:induction false} RequestsWereSent(
    env: Env, m: int, ss: seq<State>, es: seq<Event>, n: nat, id: nat, verifying: bool)
    requires IsRun(env, m, ss, es) && n <= |es|
    ensures FitsSent(es, n, ss[n].requests, id, verifying)
  {
    if n > 0 {
      assert ss[n] == Next(env, m, ss[n - 1], es[n - 1]);
      RequestsWereSent(env, m, ss, es, n - 1, id, verifying);
      RequestsWereSent(env, m, ss, es, n - 1, id, !verifying);
      StepFitsSent(env, ss[n - 1], es, n - 1, id, verifying);
    }
  }

  // How many times request `id` has called back.
  function Calls(log: seq<(nat, Outcome)>, id: nat): nat {
    if log == [] then 0 else Calls(log[..|log| - 1], id) + if log[|log| - 1].0 == id then 1 else 0
  }

  ghost predicate CalledBack(r: Requests, id: nat) {
    Calls(r.log, id) == if id in r.phases && r.phases[id].Finished? then 1 else 0
  }

  lemma CallBackCounts(r: Requests, id: nat, outcome: Outcome, other: nat)
    requires CalledBack(r, other) && id in r.phases && !r.phases[id].Finished?
    ensures CalledBack(CallBack(r, id, outcome), other)
  {
    var log := CallBack(r, id, outcome).log;
    assert log[..|log| - 1] == r.log;
  }

  lemma MoveCounts(r: Requests, id: nat, phase: Phase, other: nat)
    requires CalledBack(r, other) && !phase.Finished? && (id in r.phases ==> !r.phases[id].Finished?)
    ensures CalledBack(Move(r, id, phase), other)
  {
  }

  // A callback finishes a request that was not; any other move, and an exception, leave it unfinished.
  lemma StepCounts(env: Env, s: State, e: Event, id: nat)
    requires Enabled(s, e) && CalledBack(s.requests, id)
    ensures CalledBack(NextRequests(env, s, e), id)
  {
    if e.Send? {
      MoveCounts(s.requests, e.id, Sent(e.verifying), id);
    } else if e.Receive? || e.ClientGone? || e.ResolveCert? || e.VerifyAnswer? {
      AnswerStepCounts(env, s, e, id);
    }
  }

  lemma AnswerStepCounts(env: Env, s: State, e: Event, id: nat)
    requires Enabled(s, e) && CalledBack(s.requests, id)
    requires e.Receive? || e.ClientGone? || e.ResolveCert? || e.VerifyAnswer?
    ensures CalledBack(NextRequests(env, s, e), id)
  {
    var r := s.requests;
    forall outcome
      ensures CalledBack(CallBack(r, e.id, outcome), id)
    {
      CallBackCounts(r, e.id, outcome, id);
    }
    forall phase: Phase | !phase.Finished?
      ensures CalledBack(Move(r, e.id, phase), id)
    {
      MoveCounts(r, e.id, phase, id);
    }
  }

  // A finished request has called back once; one that is not finished, lost ones included, not at all.
  lemma {:induction false} EachRequestCallsBackOnce(env: Env, m: int, ss: seq<State>, es: seq<Event>, n: nat, id: nat)
    requires IsRun(env, m, ss, es) && n <= |es|
    ensures var r := ss[n].requests;
      Calls(r.log, id) == if id in r.phases && r.phases[id].Finished? then 1 else 0
  {
    if n > 0 {
      EachRequestCallsBackOnce(env, m, ss, es, n - 1, id);
      assert ss[n] == Next(env, m, ss[n - 1], es[n - 1]);
      StepCounts(env, ss[n - 1], es[n - 1], id);
    }
  }

  // A request that has finished, or was lost, stays so.
  lemma {:induction false} SettledStays(env: Env, m: int, ss: seq<State>, es: seq<Event>, i: nat, n: nat, id: nat)
    requires IsRun(env, m, ss, es) && i <= n <= |es|
    requires id in ss[i].requests.phases && IsSettled(ss[i].requests.phases[id])
    ensures id in ss[n].requests.phases && ss[n].requests.phases[id] == ss[i].requests.phases[id]
    decreases n - i
  {
    if i < n {
      SettledStays(env, m, ss, es, i, n - 1, id);
      assert ss[n] == Next(env, m, ss[n - 1], es[n - 1]);
    }
  }

  // Event i read answer `a` for request `id`: a bootstrap reply as it came, any other once it verified.
  ghost predicate ReadsAt(env: Env, ss: seq<State>, es: seq<Event>, i: nat, id: nat, a: Answer) {
    && i < |es| && i < |ss| && id in ss[i].requests.phases
    && var phase := ss[i].requests.phases[id];
       || (es[i] == Receive(id, Received(a)) && phase == Sent(false))
       || (es[i].VerifyAnswer? && es[i].id == id && phase.Holding? && phase.answer == a
           && VerifyMessage(env, Framed(a.timestamp, a.nonce, a.body), a.signature, phase.content, es[i].now) == None)
  }

  // An answer that is read settles its request for good: lost if it faults, called back with otherwise.
  lemma AnswersSettle(env: Env, m: int, ss: seq<State>, es: seq<Event>, i: nat, n: nat, id: nat, a: Answer)
    requires IsRun(env, m, ss, es) && i < n <= |es| && ReadsAt(env, ss, es, i, id, a)
    ensures id in ss[n].requests.phases
    ensures ss[n].requests.phases[id] == if Faults(env, a) then Lost else Finished
    ensures Calls(ss[n].requests.log, id) == if Faults(env, a) then 0 else 1
  {
    assert ss[i + 1] == Next(env, m, ss[i], es[i]);
    ReadingFaults(env, a);
    SettledStays(env, m, ss, es, i + 1, n, id);
    EachRequestCallsBackOnce(env, m, ss, es, n, id);
  }

  // An answer that is read without a fault is reported to its request's caller, there and then.
  lemma ReadsReport(env: Env, m: int, ss: seq<State>, es: seq<Event>, i: nat, id: nat, a: Answer)
    returns (outcome: Outcome)
    requires IsRun(env, m, ss, es) && ReadsAt(env, ss, es, i, id, a) && !Faults(env, a)
    ensures ss[i + 1].requests.log == ss[i].requests.log + [(id, outcome)] && Reports(env, a, outcome)
  {
    assert ss[i + 1] == Next(env, m, ss[i], es[i]);
    ReadingFaults(env, a);
    outcome := ReadAnswer(env, a).value;
    AnswersReportExactly(env, a, outcome);
  }

  // What the other ends of a request tell its caller: how the transport failed, or that the client is gone.
  lemma DropsReport(env: Env, m: int, ss: seq<State>, es: seq<Event>, i: nat, id: nat)
    requires IsRun(env, m, ss, es) && i < |es|
    ensures forall timedOut :: es[i] == Receive(id, TransportFailure(timedOut)) ==>
      ss[i + 1].requests.log
      == ss[i].requests.log + [(id, Outcome(Null, if timedOut then TimedOut else TransportFailed))]
    ensures es[i] == ClientGone(id) ==>
      ss[i + 1].requests.log == ss[i].requests.log + [(id, Outcome(Null, Unverified(ClientDestroyed)))]
  {
    assert ss[i + 1] == Next(env, m, ss[i], es[i]);
  }

  // A request is lost exactly when an answer that faults was read for it.
  lemma {:induction false} LostRequestsFaulted(env: Env, m: int, ss: seq<State>, es: seq<Event>, n: nat, id: nat)
    returns (i: nat, a: Answer)
    requires IsRun(env, m, ss, es) && n <= |es| && id in ss[n].requests.phases && ss[n].requests.phases[id].Lost?
    ensures i < n && ReadsAt(env, ss, es, i, id, a) && Faults(env, a)
  {
    assert ss[n] == Next(env, m, ss[n - 1], es[n - 1]);
    if id in ss[n - 1].requests.phases && ss[n - 1].requests.phases[id].Lost? {
      i, a := LostRequestsFaulted(env, m, ss, es, n - 1, id);
    } else {
      i := n - 1;
      var phase := ss[i].requests.phases[id];
      a := if es[i].Receive? then es[i].reply.answer else phase.answer;
      ReadingFaults(env, a);
    }
  }

  // A bootstrap whose error reply has an object for its code is lost.
  lemma LostBootstrapsAreReachable(env: Env, m: int, a: Answer) returns (ss: seq<State>, es: seq<Event>)
    requires a.status == 500 && a.body == "{\"code\":{}}"
    requires env.parseJson(a.body) == (true, Object(map["code" := Object(map[])]))
    ensures IsRun(env, m, ss, es) && es == [Send(0, false), Receive(0, Received(a))]
    ensures ss[2].requests == Requests(map[0 := Lost], [])
  {
    es := [Send(0, false), Receive(0, Received(a))];
    var s0 := State(Certs(map[], map[]), Requests(map[], []), 0);
    var s1 := Next(env, m, s0, es[0]);
    var s2 := Next(env, m, s1, es[1]);
    ss := [s0, s1, s2];
    ReadingFaults(env, a);
    assert s1.requests.phases == map[0 := Sent(false)];
    assert s2.requests.phases == map[0 := Lost];
  }

  // The event that appended entry k of the log.
  lemma {:induction false} EntriesHaveAnEvent(env: Env, m: int, ss: seq<State>, es: seq<Event>, n: nat, k: nat)
    returns (i: nat)
    requires IsRun(env, m, ss, es) && n <= |es| && k < |ss[n].requests.log|
    ensures i < n && |ss[i].requests.log| == k && ss[i + 1].requests.log == ss[i].requests.log + [ss[n].requests.log[k]]
  {
    assert ss[n] == Next(env, m, ss[n - 1], es[n - 1]);
    if k < |ss[n - 1].requests.log| {
      i := EntriesHaveAnEvent(env, m, ss, es, n - 1, k);
    } else {
      i := n - 1;
    }
  }

  // The outcomes that reveal nothing of an answer's status and body.
  predicate Blank(outcome: Outcome) {
    && outcome.body == Null
    && (outcome.failure.TimedOut? || outcome.failure.TransportFailed? || outcome.failure.Unverified?)
  }

  // Event v found that the answer verifies under `content`, a certificate in validity at that moment
  // which carries the serial the answer names.
  ghost predicate VerifiedAt(env: Env, es: seq<Event>, v: nat, id: nat, a: Answer, content: string) {
    && v < |es| && es[v].VerifyAnswer? && es[v].id == id
    && ValidUnder(env, content, es[v].now, Canonical(a.serial))
    && env.readCert(content).value.publicKey.Some? && env.decode(a.signature) != ""
    && env.verifies(env.readCert(content).value.publicKey.value,
                    a.timestamp + "\n" + a.nonce + "\n" + a.body + "\n", env.decode(a.signature))
  }

  // Apart from the certificate bootstrap, whatever a caller learns of an answer's status, body or
  // error envelope comes from an answer that was received for its request and then verified under a
  // certificate that is the static file's or was itself checked before it entered the cache.
  lemma OnlyVerifiedAnswersAreRead(env: Env, m: int, ss: seq<State>, es: seq<Event>, n: nat, k: nat)
    returns (r: nat, q: nat, v: nat, a: Answer, content: string)
    requires IsRun(env, m, ss, es) && n <= |es| && k < |ss[n].requests.log|
    requires SentAs(es, n, ss[n].requests.log[k].0, true) && !Blank(ss[n].requests.log[k].1)
    ensures ResolvedAt(env, ss, es, r, q, ss[n].requests.log[k].0, a, content) && q < v < n
    ensures VerifiedAt(env, es, v, ss[n].requests.log[k].0, a, content)
    ensures Reports(env, a, ss[n].requests.log[k].1)
    ensures es[q].file == Contents(content) ||
      exists i :: 0 <= i < q && CheckedAt(env, es, i, Canonical(a.serial), content)
  {
    var id := ss[n].requests.log[k].0;
    var i := EntriesHaveAnEvent(env, m, ss, es, n, k);
    assert ss[i + 1] == Next(env, m, ss[i], es[i]);
    assert ss[i + 1].requests.log[k] == ss[n].requests.log[k];
    RequestsWereSent(env, m, ss, es, n, id, true);
    RequestsWereSent(env, m, ss, es, n, id, false);
    RequestsWereSent(env, m, ss, es, i, id, true);
    RequestsWereSent(env, m, ss, es, i, id, false);
    SentOneWay(env, m, ss, es, n, id);
    v := i;
    r, q := HeldCertsWereResolved(env, m, ss, es, i, id);
    a, content := ss[i].requests.phases[id].answer, ss[i].requests.phases[id].content;
    ResolvedCertsCarryTheSerial(env, m, ss, es, q, a.serial, es[q].file);
    TrimIsNotEmpty(Upper(a.serial));
    AnswersReportExactly(env, a, ss[n].requests.log[k].1);
    if es[q].file != Contents(content) {
      var c := CachedCertsWereChecked(env, m, ss, es, q, Canonical(a.serial));
    }
  }

  lemma {:induction false} SentOneWay(env: Env, m: int, ss: seq<State>, es: seq<Event>, n: nat, id: nat)
    requires IsRun(env, m, ss, es) && n <= |es|
    ensures !(SentAs(es, n, id, true) && SentAs(es, n, id, false))
  {
    if n > 0 {
      SentOneWay(env, m, ss, es, n - 1, id);
      RequestsWereSent(env, m, ss, es, n - 1, id, true);
      RequestsWereSent(env, m, ss, es, n - 1, id, false);
      assert Enabled(ss[n - 1], es[n - 1]);
    }
  }

  // ------------------------------------------------------------------ the download throttle

  // The stamps accepted among the first n events, in order.
  ghost function Stamps(env: Env, m: int, ss: seq<State>, es: seq<Event>, n: nat): (stamps: seq<Instant>)
    requires IsRun(env, m, ss, es) && n <= |es|
  {
    if n == 0 then []
    else
      var e := es[n - 1];
      if e.Download? && Accepts(m, ss[n - 1].stamp, e.signed, e.now) then Stamps(env, m, ss, es, n - 1) + [e.now]
      else Stamps(env, m, ss, es, n - 1)
  }

  ghost predicate Spaced(stamps: seq<Instant>, gap: int) {
    forall i :: 0 < i < |stamps| ==> stamps[i] - stamps[i - 1] >= gap
  }

  lemma WholeSecondsReach(d: Instant, m: int)
    requires m >= 1
    ensures WholeSeconds(d) >= m <==> d >= m * NANOS_PER_SECOND
  {
  }

  // An attempt is accepted exactly when it signs and the last stamp, unless zero, lies the interval behind.
  lemma AcceptsExactly(m: int, stamp: Instant, signed: bool, now: Instant)
    requires m >= 1
    ensures Accepts(m, stamp, signed, now) <==> signed && (stamp == 0 || now - stamp >= m * 1_000_000_000)
  {
    WholeSecondsReach(now - stamp, m);
  }

  // Attempts that do not sign, or come too soon, leave the stamp alone; each of the others lies at least the
  // interval behind the one before it, unless that one's clock reading of zero passes for "never".
  lemma {:induction false} StampsFollow(env: Env, m: int, ss: seq<State>, es: seq<Event>, n: nat)
    requires IsRun(env, m, ss, es) && n <= |es| && m >= 1
    ensures var stamps := Stamps(env, m, ss, es, n);
      && ss[n].stamp == (if stamps == [] then 0 else stamps[|stamps| - 1])
      && forall i :: 0 < i < |stamps| && stamps[i - 1] != 0 ==> stamps[i] - stamps[i - 1] >= m * NANOS_PER_SECOND
  {
    if n > 0 {
      StampsFollow(env, m, ss, es, n - 1);
      assert ss[n] == Next(env, m, ss[n - 1], es[n - 1]);
      if Stamps(env, m, ss, es, n) != Stamps(env, m, ss, es, n - 1) {
        WholeSecondsReach(es[n - 1].now - ss[n - 1].stamp, m);
      }
    }
  }

  // So without a zero stamp, all accepted stamps lie the interval apart.
  lemma DownloadsAreSpaced(env: Env, m: int, ss: seq<State>, es: seq<Event>, n: nat)
    requires IsRun(env, m, ss, es) && n <= |es| && m >= 1
    requires forall s :: s in Stamps(env, m, ss, es, n) ==> s != 0
    ensures Spaced(Stamps(env, m, ss, es, n), m * NANOS_PER_SECOND)
  {
    StampsFollow(env, m, ss, es, n);
    var stamps := Stamps(env, m, ss, es, n);
    forall i | 0 < i < |stamps|
      ensures stamps[i] - stamps[i - 1] >= m * NANOS_PER_SECOND
    {
      assert stamps[i - 1] in stamps;
    }
  }

  // In a run that has accepted a stamp, whatever is accepted next keeps the interval exactly when that
  // stamp is not zero.
  lemma ZeroStampsForget(env: Env, m: int, ss: seq<State>, es: seq<Event>, n: nat)
    requires IsRun(env, m, ss, es) && n <= |es| && m >= 1 && Stamps(env, m, ss, es, n) != []
    ensures var stamps := Stamps(env, m, ss, es, n);
      var last := stamps[|stamps| - 1];
      (forall now :: Accepts(m, ss[n].stamp, true, now) ==> now - last >= m * NANOS_PER_SECOND) <==> last != 0
  {
    StampsFollow(env, m, ss, es, n);
    var stamp := ss[n].stamp;
    if stamp == 0 {
      assert Accepts(m, stamp, true, 1);
    } else {
      forall now | Accepts(m, stamp, true, now)
        ensures now - stamp >= m * NANOS_PER_SECOND
      {
        WholeSecondsReach(now - stamp, m);
      }
    }
  }

  // A run whose accepted stamps lie one nanosecond apart: the first of them is zero.
  lemma ZeroStampsAreReachable(env: Env, m: int) returns (ss: seq<State>, es: seq<Event>)
    requires m >= 1
    ensures IsRun(env, m, ss, es) && es == [Download(true, 0), Download(true, 1)]
    ensures Stamps(env, m, ss, es, 2) == [0, 1] && !Spaced(Stamps(env, m, ss, es, 2), m * NANOS_PER_SECOND)
  {
    var s0 := State(Certs(map[], map[]), Requests(map[], []), 0);
    es := [Download(true, 0), Download(true, 1)];
    var s1 := Next(env, m, s0, es[0]);
    var s2 := Next(env, m, s1, es[1]);
    ss := [s0, s1, s2];
    assert Stamps(env, m, ss, es, 0) == [];
    assert Stamps(env, m, ss, es, 1) == [] + [0] == [0];
    var stamps := Stamps(env, m, ss, es, 2);
    assert stamps == [0] + [1];
    assert stamps[1] - stamps[1 - 1] < m * NANOS_PER_SECOND;
  }

  // How many stamps fall in the closed window from `from` of this width.
  ghost function InWindow(stamps: seq<Instant>, from: Instant, width: int): nat {
    if stamps == [] then 0
    else InWindow(stamps[..|stamps| - 1], from, width) +
         if from <= stamps[|stamps| - 1] <= from + width then 1 else 0
  }

  lemma {:induction false} WindowBound(stamps: seq<Instant>, from: Instant, width: int, gap: int)
    requires Spaced(stamps, gap) && gap > 0 && width >= 0
    ensures var c := InWindow(stamps, from, width);
      c > 0 ==> stamps != [] && (c - 1) * gap <= stamps[|stamps| - 1] - from && (c - 1) * gap <= width
  {
    if stamps != [] {
      var init, last := stamps[..|stamps| - 1], stamps[|stamps| - 1];
      WindowBound(init, from, width, gap);
      var c := InWindow(init, from, width);
      assert c * gap == (c - 1) * gap + gap;
      assert c > 0 ==> last - init[|init| - 1] >= gap;
    }
  }

  // Any window of W nanoseconds holds at most W / interval + 1 accepted downloads.
  lemma DownloadRateIsBounded(env: Env, m: int, ss: seq<State>, es: seq<Event>, n: nat, from: Instant, width: int)
    requires IsRun(env, m, ss, es) && n <= |es| && m >= 1 && width >= 0
    requires forall s :: s in Stamps(env, m, ss, es, n) ==> s != 0
    ensures InWindow(Stamps(env, m, ss, es, n), from, width) <= width / (m * NANOS_PER_SECOND) + 1
  {
    DownloadsAreSpaced(env, m, ss, es, n);
    var stamps, gap := Stamps(env, m, ss, es, n), m * NANOS_PER_SECOND;
    WindowBound(stamps, from, width, gap);
    QuotientBound(InWindow(stamps, from, width) - 1, gap, width);
  }

  lemma MulGrows(a: int, b: int, c: int)
    requires a <= b && c > 0
    ensures a * c <= b * c
  {
  }

  lemma QuotientBound(k: int, gap: int, width: int)
    requires gap > 0 && width >= 0 && (k <= 0 || k * gap <= width)
    ensures k <= width / gap
  {
    var q := width / gap;
    assert width == q * gap + width % gap;
    if k > q {
      MulGrows(q + 1, k, gap);
    }
  }

  // ------------------------------------------------------------------ the client

  datatype Encrypted = Encrypted(ciphertext: string, nonce: string, associatedData: string)

  // What reading one element of a download answer gives.
  datatype NodeRead = Skipped | Certificate(serialNo: string, encrypted: Encrypted) | NodeThrows

  function EncryptedOf(v: Json): Option<Encrypted> {
    match (ReadText(v, "ciphertext"), ReadText(v, "nonce"), ReadText(v, "associated_data"))
    case (Some(ciphertext), Some(nonce), Some(data)) => Some(Encrypted(ciphertext, nonce, data))
    case _ => None
  }

  function ReadNode(node: Json): NodeRead {
    match (ReadText(node, "serial_no"), Member(node, "encrypt_certificate", Null))
    case (Some(serialNo), Some(v)) =>
      if serialNo == "" || v == Null then Skipped
      else if EncryptedOf(v) == None then NodeThrows
      else Certificate(serialNo, EncryptedOf(v).value)
    case _ => NodeThrows
  }

  // A node without members, one whose serial number is an array or an object, and one with a serial number
  // whose encrypted part has no members or such a member among the three that are read.
  predicate Malformed(node: Json) {
    || !HasMembers(node)
    || HoldsComposite(node, "serial_no")
    || (&& ReadText(node, "serial_no") != Some("")
        && node.Object? && "encrypt_certificate" in node.members
        && var v := node.members["encrypt_certificate"];
           || !HasMembers(v)
           || HoldsComposite(v, "ciphertext") || HoldsComposite(v, "nonce") || HoldsComposite(v, "associated_data"))
  }

  lemma NodesThrowExactly(node: Json)
    ensures ReadNode(node) == NodeThrows <==> Malformed(node)
  {
    ReadTextThrows(node, "serial_no");
    if node.Object? && "encrypt_certificate" in node.members {
      var v := node.members["encrypt_certificate"];
      ReadTextThrows(v, "ciphertext");
      ReadTextThrows(v, "nonce");
      ReadTextThrows(v, "associated_data");
    }
  }

  // The clock and the chain check that a node's installation meets.
  datatype Meeting = Meeting(now: Instant, anchored: bool)

  // The key and certificate that a node installs, if it installs one.
  function Installs(env: Env, node: Json, at: Meeting): Option<(string, string)> {
    match ReadNode(node)
    case Certificate(serialNo, e) =>
      (match env.decrypt(e.ciphertext, e.nonce, e.associatedData)
       case None => None
       case Some(content) =>
         var key := CheckedSerial(env, serialNo, content, at.now, at.anchored);
         if key == None then None else Some((key.value, content)))
    case _ => None
  }

  // A node files exactly what its three texts decrypt to, where that is an anchored certificate in validity
  // under the node's own serial number.
  lemma NodesFileExactly(env: Env, node: Json, at: Meeting, key: string, content: string)
    ensures Installs(env, node, at) == Some((key, content)) <==>
      && !Malformed(node) && node.Object? && "encrypt_certificate" in node.members
      && node.members["encrypt_certificate"] != Null
      && var serialNo, v := Shown(node, "serial_no"), node.members["encrypt_certificate"];
         && serialNo != "" && key == Canonical(serialNo)
         && env.decrypt(Shown(v, "ciphertext"), Shown(v, "nonce"), Shown(v, "associated_data")) == Some(content)
         && at.anchored && ValidUnder(env, content, at.now, key)
  {
    NodesThrowExactly(node);
    ReadTextShows(node, "serial_no");
    if node.Object? && "encrypt_certificate" in node.members {
      EncryptedShows(node.members["encrypt_certificate"]);
    }
    if ReadNode(node).Certificate? {
      var read := ReadNode(node);
      var e := read.encrypted;
      var plaintext := env.decrypt(e.ciphertext, e.nonce, e.associatedData);
      if plaintext.Some? {
        ChecksExactly(env, read.serialNo, plaintext.value, at.now, at.anchored);
      }
    }
  }

  lemma EncryptedShows(v: Json)
    ensures EncryptedOf(v).Some? ==>
      EncryptedOf(v).value == Encrypted(Shown(v, "ciphertext"), Shown(v, "nonce"), Shown(v, "associated_data"))
  {
    ReadTextShows(v, "ciphertext");
    ReadTextShows(v, "nonce");
    ReadTextShows(v, "associated_data");
  }

  // The nodes before the first malformed one.
  function Readable(nodes: seq<Json>): (k: nat)
    ensures k <= |nodes|
  {
    if nodes == [] || ReadNode(nodes[0]) == NodeThrows then 0 else 1 + Readable(nodes[1..])
  }

  lemma {:induction false} ReadableEnds(nodes: seq<Json>, i: nat)
    requires i <= Readable(nodes) && i < |nodes|
    ensures ReadNode(nodes[i]) == NodeThrows <==> i == Readable(nodes)
  {
    if i > 0 {
      ReadableEnds(nodes[1..], i - 1);
    }
  }

  type Filing = Option<(string, string)>

  // What each node files: a key with its certificate, or nothing.
  function Filings(env: Env, nodes: seq<Json>, at: nat -> Meeting): (filings: seq<Filing>)
    ensures |filings| == |nodes|
  {
    seq(|nodes|, i requires 0 <= i < |nodes| => Installs(env, nodes[i], at(i)))
  }

  function FileAll(cache: Cache, filings: seq<Filing>): Cache {
    if filings == [] then cache
    else
      FiledOnce(FileAll(cache, filings[..|filings| - 1]), filings[|filings| - 1])
  }

  function FiledOnce(cache: Cache, filing: Filing): Cache {
    if filing == None then cache else cache[filing.value.0 := filing.value.1]
  }

  lemma FileOneMore(cache: Cache, filings: seq<Filing>, i: nat)
    requires i < |filings|
    ensures FileAll(cache, filings[..i + 1]) == FiledOnce(FileAll(cache, filings[..i]), filings[i])
    ensures CountFiled(filings[..i + 1]) == CountFiled(filings[..i]) + if filings[i] == None then 0 else 1
  {
    assert filings[..i + 1][..i] == filings[..i] && filings[..i + 1][i] == filings[i];
  }

  function CountFiled(filings: seq<Filing>): nat {
    if filings == [] then 0
    else CountFiled(filings[..|filings| - 1]) + if filings[|filings| - 1] == None then 0 else 1
  }

  lemma {:induction false} CountsTheFilings(filings: seq<Filing>)
    ensures CountFiled(filings) == |set i | 0 <= i < |filings| && filings[i].Some?|
  {
    if filings != [] {
      var n := |filings| - 1;
      CountsTheFilings(filings[..n]);
      var before := set i | 0 <= i < n && filings[..n][i].Some?;
      var all := set i | 0 <= i < |filings| && filings[i].Some?;
      assert all == before + if filings[n].Some? then {n} else {};
      assert n !in before;
    }
  }

  predicate FilesUnder(filing: Filing, key: string) {
    filing.Some? && filing.value.0 == key
  }

  // After a download each key holds what the last node filed under it, or, when i is -1 and no node
  // filed anything under it, what it held before.
  lemma {:induction false} LastNodeWins(cache: Cache, filings: seq<Filing>, key: string) returns (i: int)
    ensures -1 <= i < |filings| && forall j :: i < j < |filings| ==> !FilesUnder(filings[j], key)
    ensures var after := FileAll(cache, filings);
      if i >= 0 then key in after && filings[i] == Some((key, after[key]))
      else (key in after <==> key in cache) && (key in after ==> after[key] == cache[key])
  {
    i := -1;
    if filings != [] {
      var n := |filings| - 1;
      if FilesUnder(filings[n], key) {
        i := n;
      } else {
        i := LastNodeWins(cache, filings[..n], key);
        assert forall j :: 0 <= j < n ==> filings[..n][j] == filings[j];
      }
    }
  }

  // An answer that files nothing leaves the cache as it was.
  lemma {:induction false} NothingFiled(cache: Cache, filings: seq<Filing>)
    requires CountFiled(filings) == 0
    ensures FileAll(cache, filings) == cache
  {
    if filings != [] {
      NothingFiled(cache, filings[..|filings| - 1]);
    }
  }

  // What a download concludes from an answer that was read without a failure.
  datatype Conclusion = Thrown | BadFormat | NothingInstalled | SomeInstalled

  // The nodes of a download answer: none where its `data` is no array.
  function NodesOf(result: Json): Option<seq<Json>> {
    if result.Object? && "data" in result.members && result.members["data"].Array? then
      Some(result.members["data"].items)
    else None
  }

  function Concluded(env: Env, result: Json, at: nat -> Meeting): Conclusion {
    if !HasMembers(result) then Thrown
    else if NodesOf(result) == None then BadFormat
    else
      var nodes := NodesOf(result).value;
      if Readable(nodes) < |nodes| then Thrown
      else if CountFiled(Filings(env, nodes, at)) == 0 then NothingInstalled
      else SomeInstalled
  }

  // A download ends without its callback exactly when its answer has no members or lists a malformed node.
  lemma DownloadsThrowExactly(env: Env, result: Json, at: nat -> Meeting)
    ensures Concluded(env, result, at) == Thrown <==>
      !HasMembers(result) || (NodesOf(result).Some? && exists node :: node in NodesOf(result).value && Malformed(node))
  {
    if HasMembers(result) && NodesOf(result).Some? {
      var nodes := NodesOf(result).value;
      var k := Readable(nodes);
      if k < |nodes| {
        ReadableEnds(nodes, k);
        NodesThrowExactly(nodes[k]);
        assert nodes[k] in nodes;
      } else if i: nat :| i < |nodes| && Malformed(nodes[i]) {
        NodesThrowExactly(nodes[i]);
        ReadableEnds(nodes, i);
      }
    }
  }

  // Otherwise its callback tells whether the answer is a list of nodes, and whether any of them filed.
  lemma ConclusionsExactly(env: Env, result: Json, at: nat -> Meeting)
    requires Concluded(env, result, at) != Thrown
    ensures Concluded(env, result, at) == BadFormat <==>
      !(result.Object? && "data" in result.members && result.members["data"].Array?)
    ensures result.Object? && "data" in result.members && result.members["data"].Array? ==>
      var nodes := result.members["data"].items;
      Concluded(env, result, at) == SomeInstalled <==>
        exists i: nat :: i < |nodes| && Installs(env, nodes[i], at(i)).Some?
  {
    if NodesOf(result).Some? {
      var nodes := NodesOf(result).value;
      var filings := Filings(env, nodes, at);
      CountsTheFilings(filings);
      var filed := set i | 0 <= i < |filings| && filings[i].Some?;
      if filed != {} {
        var i :| i in filed;
        assert Installs(env, nodes[i], at(i)).Some?;
      } else {
        assert forall i: nat :: i < |nodes| ==> i !in filed && filings[i] == Installs(env, nodes[i], at(i));
      }
    }
  }

  // The handler of one reply when nothing else runs between its steps; None where it throws.
  function Handled(
    env: Env, cache: Cache, verifying: bool, reply: Reply, file: StaticFile, now: Instant): Option<Outcome>
  {
    match reply
    case TransportFailure(timedOut) => Some(Transport(timedOut))
    case Received(a) =>
      if !verifying then ReadAnswer(env, a)
      else if !HeadersPresent(a) then Some(Dropped(MissingHeaders))
      else
        match Resolve(env, cache, a.serial, file)
        case Missing(reason) => Some(Dropped(reason))
        case Found(content) => Judge(env, a, content, now)
  }

  // Whether the handler gets to read the answer: it asks for no verification, or the answer verifies.
  predicate MayRead(env: Env, cache: Cache, verifying: bool, a: Answer, file: StaticFile, now: Instant) {
    !verifying ||
    (&& HeadersPresent(a) && Resolve(env, cache, a.serial, file).Found?
     && var content := Resolve(env, cache, a.serial, file).content;
        VerifyMessage(env, Framed(a.timestamp, a.nonce, a.body), a.signature, content, now) == None)
  }

  // Handling a reply fails to call back exactly when it gets to read an answer that faults.
  lemma HandlersThrowExactly(
    env: Env, cache: Cache, verifying: bool, reply: Reply, file: StaticFile, now: Instant)
    ensures Handled(env, cache, verifying, reply, file, now) == None <==>
      reply.Received? && MayRead(env, cache, verifying, reply.answer, file, now) && Faults(env, reply.answer)
  {
    if reply.Received? {
      ReadingFaults(env, reply.answer);
    }
  }

  // What a handled reply tells: the transport's failure, why the answer was dropped, or the answer's report.
  lemma HandlersReport(env: Env, cache: Cache, verifying: bool, reply: Reply, file: StaticFile, now: Instant)
    ensures var told := Handled(env, cache, verifying, reply, file, now);
      match reply
      case TransportFailure(timedOut) =>
        told == Some(Outcome(Null, if timedOut then TimedOut else TransportFailed))
      case Received(a) =>
        if verifying && (a.timestamp == "" || a.nonce == "" || a.signature == "") then
          told == Some(Outcome(Null, Unverified(MissingHeaders)))
        else
          var resolution := Resolve(env, cache, a.serial, file);
          if verifying && resolution.Missing? then told == Some(Outcome(Null, Unverified(resolution.reason)))
          else
            var text := a.timestamp + "\n" + a.nonce + "\n" + a.body + "\n";
            var refusal :=
              if verifying then VerifyMessage(env, text, a.signature, resolution.content, now) else None;
            if refusal.Some? then told == Some(Outcome(Null, Unverified(refusal.value)))
            else if Faults(env, a) then told == None
            else told.Some? && Reports(env, a, told.value)
  {
    if reply.Received? {
      ReadingFaults(env, reply.answer);
      var read := ReadAnswer(env, reply.answer);
      if read.Some? {
        AnswersReportExactly(env, reply.answer, read.value);
      }
    }
  }

  function Logged(id: nat, outcome: Option<Outcome>): seq<(nat, Outcome)> {
    if outcome == None then [] else [(id, outcome.value)]
  }

  // An uninterrupted handler is one schedule of the state machine.
  lemma HandlerIsASchedule(
    env: Env, m: int, s: State, id: nat, reply: Reply, file: StaticFile, now: Instant)
    returns (es: seq<Event>, t: State)
    requires id in s.requests.phases && s.requests.phases[id].Sent?
    ensures 1 <= |es| <= 3 && es[0] == Receive(id, reply)
    ensures Reaches(env, m, s, es, t)
    ensures var outcome := Handled(env, s.certs.cache, s.requests.phases[id].verifying, reply, file, now);
      && t.requests.log == s.requests.log + Logged(id, outcome)
      && id in t.requests.phases && t.requests.phases[id] == if outcome == None then Lost else Finished
    ensures t.certs == s.certs && t.stamp == s.stamp
  {
    es := [Receive(id, reply)];
    var s1 := Next(env, m, s, es[0]);
    t := s1;
    assert Reaches(env, m, s1, es[1..], t);
    if s1.requests.phases[id].Answered? {
      es := [Receive(id, reply), ResolveCert(id, file)];
      assert es[1..] == [ResolveCert(id, file)];
      var s2 := Next(env, m, s1, es[1]);
      t := s2;
      assert Reaches(env, m, s2, es[1..][1..], t);
      assert Reaches(env, m, s1, es[1..], t);
      if s2.requests.phases[id].Holding? {
        es := [Receive(id, reply), ResolveCert(id, file), VerifyAnswer(id, now)];
        assert es[1..] == [ResolveCert(id, file), VerifyAnswer(id, now)] && es[1..][1..] == [VerifyAnswer(id, now)];
        t := Next(env, m, s2, es[2]);
        assert Reaches(env, m, t, es[1..][1..][1..], t);
        assert Reaches(env, m, s2, es[1..][1..], t);
        assert Reaches(env, m, s1, es[1..], t);
      }
    }
  }

  ghost predicate Reaches(env: Env, m: int, s: State, es: seq<Event>, t: State)
    decreases |es|
  {
    if es == [] then s == t
    else Enabled(s, es[0]) && Reaches(env, m, Next(env, m, s, es[0]), es[1..], t)
  }

  class WechatPayClient {
    const certDownloadMinIntervalSeconds: int
    var platformCerts: Cache
    var lastCertDownloadAt: Instant
    var called: seq<Outcome>  // what the requests' callbacks received, in order

    constructor (configuredInterval: int)
      ensures certDownloadMinIntervalSeconds >= 1
      ensures configuredInterval >= 1 ==> certDownloadMinIntervalSeconds == configuredInterval
      ensures platformCerts == map[] && lastCertDownloadAt == 0 && called == []
    {
      certDownloadMinIntervalSeconds := if configuredInterval < 1 then 1 else configuredInterval;
      platformCerts := map[];
      lastCertDownloadAt := 0;
      called := [];
    }

    method SetPlatformCert(env: Env, serialNo: string, content: string, now: Instant, anchored: bool) returns (ok: bool)
      modifies this`platformCerts
      ensures ok <==> CheckedSerial(env, serialNo, content, now, anchored).Some?
      ensures platformCerts == if ok then old(platformCerts)[Canonical(serialNo) := content] else old(platformCerts)
    {
      if serialNo == "" {
        return false;
      }
      var cert := ParseCert(env, content);
      if cert == None {
        return false;
      }
      var actualSerial := "";
      if cert.value.serialText.Some? {
        actualSerial := NormalizeSerialHex(cert.value.serialText.value);
      }
      if !WithinValidity(cert.value, now) {
        return false;
      }
      var claimed := NormalizeSerialHex(serialNo);
      if actualSerial == "" || actualSerial != claimed {
        return false;
      }
      if !anchored {
        return false;
      }
      platformCerts := platformCerts[actualSerial := content];
      return true;
    }

    method GetPlatformCert(serialNo: string) returns (content: string)
      ensures content == Lookup(platformCerts, serialNo)
    {
      var key := NormalizeSerialHex(serialNo);
      if key in platformCerts {
        return platformCerts[key];
      }
      return "";
    }

    method ResolveTrustedPlatformCert(env: Env, serialNo: string, file: StaticFile) returns (resolution: Resolution)
      ensures resolution == Resolve(env, platformCerts, serialNo, file)
    {
      if serialNo == "" {
        return Missing(MissingSerial);
      }
      if |serialNo| > MAX_SERIAL_LENGTH {
        return Missing(SerialTooLong);
      }
      var content := GetPlatformCert(serialNo);
      if content == "" && file != NotConfigured {
        if file.ReadFails? {
          return Missing(StaticFileUnreadable(file.error));
        }
        var asked := NormalizeSerialHex(serialNo);
        TrimIsNotEmpty(Upper(serialNo));
        if CertificateSerial(env, file.text) == asked {
          content := file.text;
        }
      }
      if content == "" {
        return Missing(NoTrustedCert(serialNo));
      }
      return Found(content);
    }

    // The part of downloadCertificates that decides whether a request is issued.
    method SpendDownloadWindow(signed: bool, now: Instant) returns (issued: bool)
      requires certDownloadMinIntervalSeconds >= 1
      modifies this`lastCertDownloadAt
      ensures var before, interval := old(lastCertDownloadAt), certDownloadMinIntervalSeconds * 1_000_000_000;
        issued <==> signed && (before == 0 || now - before >= interval)
      ensures lastCertDownloadAt == if issued then now else old(lastCertDownloadAt)
      ensures lastCertDownloadAt ==
        NextStamp(certDownloadMinIntervalSeconds, old(lastCertDownloadAt), Download(signed, now))
    {
      AcceptsExactly(certDownloadMinIntervalSeconds, lastCertDownloadAt, signed, now);
      if !signed {
        return false;
      }
      if certDownloadMinIntervalSeconds > 0 {
        if lastCertDownloadAt != 0 {
          var elapsed := WholeSeconds(now - lastCertDownloadAt);
          if elapsed < certDownloadMinIntervalSeconds {
            return false;
          }
        }
        lastCertDownloadAt := now;
      }
      return true;
    }

    // The loop of downloadCertificates over an answer's nodes: how many it filed, or None where it throws,
    // after what the nodes before have filed.
    method InstallDownloaded(env: Env, nodes: seq<Json>, at: nat -> Meeting) returns (installed: Option<nat>)
      modifies this`platformCerts
      ensures platformCerts == FileAll(old(platformCerts), Filings(env, nodes, at)[..Readable(nodes)])
      ensures installed ==
        if Readable(nodes) < |nodes| then None else Some(CountFiled(Filings(env, nodes, at)))
    {
      var count := 0;
      ghost var filings := Filings(env, nodes, at);
      for i := 0 to |nodes|
        invariant i <= Readable(nodes)
        invariant platformCerts == FileAll(old(platformCerts), filings[..i])
        invariant count == CountFiled(filings[..i])
      {
        FileOneMore(old(platformCerts), filings, i);
        ReadableEnds(nodes, i);
        var threw, filed := InstallNode(env, nodes[i], at(i));
        if threw {
          return None;
        }
        if filed {
          count := count + 1;
        }
      }
      assert filings[..|nodes|] == filings;
      return Some(count);
    }

    // The loop's body.
    method InstallNode(env: Env, node: Json, at: Meeting) returns (threw: bool, filed: bool)
      modifies this`platformCerts
      ensures threw <==> ReadNode(node) == NodeThrows
      ensures filed <==> Installs(env, node, at).Some?
      ensures platformCerts == FiledOnce(old(platformCerts), Installs(env, node, at))
    {
      var read := ReadNode(node);
      if !read.Certificate? {
        return read == NodeThrows, false;
      }
      var e := read.encrypted;
      var plaintext := env.decrypt(e.ciphertext, e.nonce, e.associatedData);
      if plaintext == None {
        return false, false;
      }
      filed := SetPlatformCert(env, read.serialNo, plaintext.value, at.now, at.anchored);
      threw := false;
    }

    // The download's own callback, on an answer that was read without a failure.
    method OnDownloaded(env: Env, result: Json, at: nat -> Meeting) returns (conclusion: Conclusion)
      modifies this`platformCerts
      ensures conclusion == Concluded(env, result, at)
      ensures conclusion != Thrown && conclusion != SomeInstalled ==> platformCerts == old(platformCerts)
      ensures NodesOf(result).Some? ==>
        var nodes := NodesOf(result).value;
        platformCerts == FileAll(old(platformCerts), Filings(env, nodes, at)[..Readable(nodes)])
    {
      if !HasMembers(result) {
        return Thrown;
      }
      if NodesOf(result) == None {
        return BadFormat;
      }
      var nodes := NodesOf(result).value;
      assert Filings(env, nodes, at)[..|nodes|] == Filings(env, nodes, at);
      var installed := InstallDownloaded(env, nodes, at);
      if installed == None {
        return Thrown;
      }
      if installed.value == 0 {
        NothingFiled(old(platformCerts), Filings(env, nodes, at));
        return NothingInstalled;
      }
      return SomeInstalled;
    }

    // The reply handler of sendWechatRequest: its callback runs once, or it throws.
    method OnReply(env: Env, verifying: bool, reply: Reply, file: StaticFile, now: Instant) returns (threw: bool)
      modifies this`called
      ensures var outcome := Handled(env, platformCerts, verifying, reply, file, now);
        threw == (outcome == None) && called == old(called) + if outcome == None then [] else [outcome.value]
    {
      if reply.TransportFailure? {
        called := called + [Transport(reply.timedOut)];
        return false;
      }
      var a := reply.answer;
      if verifying {
        if a.timestamp == "" || a.nonce == "" || a.signature == "" {
          called := called + [Dropped(MissingHeaders)];
          return false;
        }
        var resolution := ResolveTrustedPlatformCert(env, a.serial, file);
        if resolution.Missing? {
          called := called + [Dropped(resolution.reason)];
          return false;
        }
        var text := Framed(a.timestamp, a.nonce, a.body);
        var verifyError := VerifyMessage(env, text, a.signature, resolution.content, now);
        if verifyError.Some? {
          called := called + [Dropped(verifyError.value)];
          return false;
        }
      }
      threw := CallBackWith(env, a);
    }

    // The end of the handler, once the answer may be read.
    method CallBackWith(env: Env, a: Answer) returns (threw: bool)
      modifies this`called
      ensures var outcome := ReadAnswer(env, a);
        threw == (outcome == None) && called == old(called) + if outcome == None then [] else [outcome.value]
      ensures threw <==> Faults(env, a)
      ensures !threw ==> |called| == |old(called)| + 1 && Reports(env, a, called[|old(called)|])
    {
      ReadingFaults(env, a);
      if ReadAnswer(env, a).Some? {
        AnswersReportExactly(env, a, ReadAnswer(env, a).value);
      }
      if a.status == 204 {
        called := called + [Outcome(Object(map[]), NoFailure)];
        return false;
      }
      var (parsed, json) := env.parseJson(a.body);
      if a.status < 200 || a.status >= 300 {
        var detail := "";
        if parsed {
          var code, message := ReadText(json, "code"), ReadText(json, "message");
          if code == None || message == None {
            return true;
          }
          detail := code.value + " " + message.value;
        }
        if detail == "" || detail == " " {
          detail := "no error envelope";
        }
        called := called + [Outcome(json, HttpStatus(a.status, detail))];
        return false;
      }
      if !parsed {
        called := called + [Outcome(json, InvalidJson)];
        return false;
      }
      called := called + [Outcome(json, NoFailure)];
      return false;
    }
  }
}
