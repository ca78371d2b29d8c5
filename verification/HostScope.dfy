/** Host names, the scope of an authorization, and the gate that consults it. */
module HostScope {
  import opened Text

  /** `str.lower`, whatever the Unicode tables say. */
  type Lower = string -> string

  function RStripDots(s: string): string {
    if s != "" && s[|s| - 1] == '.' then RStripDots(s[..|s| - 1]) else s
  }

  function LStripDots(s: string): string {
    if s != "" && s[0] == '.' then LStripDots(s[1..]) else s
  }

  function Normalized(lower: Lower, host: string): string {
    RStripDots(LStripDots(lower(host)))
  }

  predicate EndsWith(s: string, t: string) {
    |t| <= |s| && s[|s| - |t|..] == t
  }

  /** `r` is `a` or a subdomain of it, as the code tests it. */
  predicate Covers(a: string, r: string) {
    r == a || EndsWith(r, "." + a)
  }

  /** `_hosts_match` */
  predicate HostsMatch(lower: Lower, authorized: string, requested: string) {
    Covers(Normalized(lower, authorized), Normalized(lower, requested))
  }

  /* ---------- labels ---------- */

  /** The labels between the dots. */
  function Labels(h: string): (labels: seq<string>)
    ensures labels != []
  {
    if h == "" then [""] else PutBefore(h[0], Labels(h[1..]))
  }

  /** A dot begins a new first label; anything else extends the first one. */
  function PutBefore(c: char, labels: seq<string>): (r: seq<string>)
    requires labels != []
    ensures r != []
  {
    if c == '.' then [""] + labels else [[c] + labels[0]] + labels[1..]
  }

  function Join(labels: seq<string>): string
    requires labels != []
  {
    if |labels| == 1 then labels[0] else labels[0] + "." + Join(labels[1..])
  }

  predicate IsSuffix(a: seq<string>, r: seq<string>) {
    |a| <= |r| && r[|r| - |a|..] == a
  }

  lemma JoinPut(c: char, labels: seq<string>)
    requires labels != []
    ensures Join(PutBefore(c, labels)) == [c] + Join(labels)
  {
    var put := PutBefore(c, labels);
    if c == '.' {
      assert put[1..] == labels;
      assert "" + "." + Join(labels) == "." + Join(labels);
    } else if |labels| > 1 {
      assert put[1..] == labels[1..];
      assert ([c] + labels[0]) + "." + Join(labels[1..]) == [c] + (labels[0] + "." + Join(labels[1..]));
    }
  }

  lemma {:induction false} JoinOfLabels(h: string)
    ensures Join(Labels(h)) == h
  {
    if h != "" {
      hide Join, PutBefore;
      JoinOfLabels(h[1..]);
      JoinPut(h[0], Labels(h[1..]));
      assert h == [h[0]] + h[1..];
    }
  }

  lemma {:induction false} JoinAppend(x: seq<string>, y: seq<string>)
    requires x != [] && y != []
    ensures Join(x + y) == Join(x) + "." + Join(y)
  {
    if |x| == 1 {
      assert (x + y)[1..] == y;
    } else {
      JoinAppend(x[1..], y);
      assert (x + y)[1..] == x[1..] + y;
    }
  }

  lemma PutBeforeAppend(c: char, x: seq<string>, y: seq<string>)
    requires x != []
    ensures PutBefore(c, x + y) == PutBefore(c, x) + y
  {
    assert (x + y)[1..] == x[1..] + y;
  }

  lemma {:induction false} LabelsAppend(p: string, a: string)
    ensures Labels(p + "." + a) == Labels(p) + Labels(a)
  {
    var h := p + "." + a;
    if p == "" {
      assert h == "." + a;
      assert h[1..] == a;
    } else {
      assert h[0] == p[0] && h[1..] == p[1..] + "." + a;
      LabelsAppend(p[1..], a);
      PutBeforeAppend(p[0], Labels(p[1..]), Labels(a));
    }
  }

  lemma CoveredHasSuffix(a: string, r: string)
    requires Covers(a, r)
    ensures IsSuffix(Labels(a), Labels(r))
  {
    hide Labels;
    if r != a {
      var p := r[..|r| - |a| - 1];
      assert r == p + ("." + a);
      assert p + ("." + a) == p + "." + a;
      LabelsAppend(p, a);
      assert (Labels(p) + Labels(a))[|Labels(p)|..] == Labels(a);
    } else {
      assert Labels(r)[0..] == Labels(r);
    }
  }

  lemma SuffixIsCovered(a: string, r: string)
    requires IsSuffix(Labels(a), Labels(r))
    ensures Covers(a, r)
  {
    hide Labels, Join;
    var x := Labels(r)[..|Labels(r)| - |Labels(a)|];
    assert Labels(r) == x + Labels(a);
    JoinOfLabels(a);
    JoinOfLabels(r);
    if x == [] {
      assert Labels(r) == Labels(a);
    } else {
      JoinAppend(x, Labels(a));
      assert r == Join(x) + ("." + a);
      assert r[|r| - |"." + a|..] == "." + a;
    }
  }

  /** Host scope is label suffix: the string test holds exactly when the labels of `a` are the last
      labels of `r`. */
  lemma CoversIsLabelSuffix(a: string, r: string)
    ensures Covers(a, r) <==> IsSuffix(Labels(a), Labels(r))
  {
    hide Covers, Labels, IsSuffix;
    if Covers(a, r) { CoveredHasSuffix(a, r); }
    if IsSuffix(Labels(a), Labels(r)) { SuffixIsCovered(a, r); }
  }

  /** Scopes are ordered: every host covers itself, coverage passes on, and two hosts that cover each
      other are one. */
  lemma CoversIsOrder(a: string, b: string, c: string)
    ensures Covers(a, a)
    ensures Covers(a, b) && Covers(b, c) ==> Covers(a, c)
    ensures Covers(a, b) && Covers(b, a) ==> a == b
  {
    if Covers(a, b) && Covers(b, c) {
      CoversIsLabelSuffix(a, b);
      CoversIsLabelSuffix(b, c);
      CoversIsLabelSuffix(a, c);
      SuffixOfSuffix(Labels(a), Labels(b), Labels(c));
    }
  }

  lemma SuffixOfSuffix(x: seq<string>, y: seq<string>, z: seq<string>)
    requires IsSuffix(x, y) && IsSuffix(y, z)
    ensures IsSuffix(x, z)
  {
    assert z[|z| - |x|..] == z[|z| - |y|..][|y| - |x|..];
  }

  predicate Dots(s: string) {
    forall i | 0 <= i < |s| :: s[i] == '.'
  }

  lemma {:induction false} LStripIsBare(s: string) returns (dots: string)
    ensures LStripDots(s) != "" ==> LStripDots(s)[0] != '.'
    ensures Dots(dots) && s == dots + LStripDots(s)
  {
    dots := "";
    if s != "" && s[0] == '.' {
      var more := LStripIsBare(s[1..]);
      dots := "." + more;
    }
  }

  lemma {:induction false} RStripIsBare(s: string)
    ensures RStripDots(s) <= s && Dots(s[|RStripDots(s)|..])
    ensures RStripDots(s) != "" ==> RStripDots(s)[|RStripDots(s)| - 1] != '.'
  {
    if s != "" && s[|s| - 1] == '.' {
      RStripIsBare(s[..|s| - 1]);
      var n := |RStripDots(s)|;
      assert s[n..] == s[..|s| - 1][n..] + ".";
    }
  }

  /** An authorization for nothing, or for dots alone, opens no other host. */
  lemma EmptyScopeIff(lower: Lower, authorized: string, requested: string)
    requires Normalized(lower, authorized) == ""
    ensures HostsMatch(lower, authorized, requested) <==> Normalized(lower, requested) == ""
  {
    NormalizedIsBare(lower, requested);
  }

  /** A normalized host is the lowered one without its outer dots: nothing else is taken away, and no dot
      is left at either end. */
  lemma NormalizedIsBare(lower: Lower, host: string)
    ensures
      var n := Normalized(lower, host);
      && (n != "" ==> n[0] != '.' && n[|n| - 1] != '.')
      && exists before, after :: Dots(before) && Dots(after) && lower(host) == before + n + after
  {
    hide LStripDots, RStripDots;
    var before := LStripIsBare(lower(host));
    var rest := LStripDots(lower(host));
    RStripIsBare(rest);
    var n := RStripDots(rest);
    var after := rest[|n|..];
    Surrounded(lower(host), before, rest, n, after);
    hide Dots;
    assert Dots(before) && Dots(after) && lower(host) == before + n + after;
    assert n != "" ==> n[0] == rest[0];
  }

  lemma Surrounded(text: string, before: string, rest: string, n: string, after: string)
    requires text == before + rest && n <= rest && after == rest[|n|..]
    ensures text == before + n + after
  {
    assert rest == n + after;
  }

  /* ---------- the gate ---------- */

  datatype LegalClass = Passive | Active | Intrusive

  /** An authorization is the host it was verified for. */
  datatype Gate = Gate(authorization: Option<string>, allowIntrusive: bool)

  datatype Denial = Unauthorized | OtherTarget | NotForced

  /** `AuthorizationGate.check`; None admits. */
  function Check(lower: Lower, gate: Gate, target: string, legalClass: LegalClass): Option<Denial> {
    if legalClass.Passive? then None
    else if gate.authorization.None? then Some(Unauthorized)
    else if !HostsMatch(lower, gate.authorization.value, target) then Some(OtherTarget)
    else if legalClass.Intrusive? && !gate.allowIntrusive then Some(NotForced)
    else None
  }

  function Rank(c: LegalClass): nat {
    match c case Passive => 0 case Active => 1 case Intrusive => 2
  }

  /** Who is admitted, in terms of labels. */
  ghost predicate MayRun(lower: Lower, gate: Gate, target: string, legalClass: LegalClass) {
    || legalClass.Passive?
    || (&& gate.authorization.Some?
        && IsSuffix(Labels(Normalized(lower, gate.authorization.value)), Labels(Normalized(lower, target)))
        && (legalClass.Intrusive? ==> gate.allowIntrusive))
  }

  lemma CheckAdmitsIff(lower: Lower, gate: Gate, target: string, legalClass: LegalClass)
    ensures Check(lower, gate, target, legalClass) == None <==> MayRun(lower, gate, target, legalClass)
  {
    if gate.authorization.Some? {
      CoversIsLabelSuffix(Normalized(lower, gate.authorization.value), Normalized(lower, target));
    }
  }

  /** Why the gate denies: nothing was authorized, or another host was, or no force was allowed. */
  lemma CheckDeniesIff(lower: Lower, gate: Gate, target: string, legalClass: LegalClass)
    ensures
      var denial, scope := Check(lower, gate, target, legalClass), gate.authorization;
      var covered := scope.Some? && IsSuffix(Labels(Normalized(lower, scope.value)), Labels(Normalized(lower, target)));
      && (denial == Some(Unauthorized) <==> !legalClass.Passive? && scope.None?)
      && (denial == Some(OtherTarget) <==> !legalClass.Passive? && scope.Some? && !covered)
      && (denial == Some(NotForced) <==> legalClass.Intrusive? && covered && !gate.allowIntrusive)
  {
    if gate.authorization.Some? {
      CoversIsLabelSuffix(Normalized(lower, gate.authorization.value), Normalized(lower, target));
    }
  }

  /** Admission reaches down the legal classes, survives a wider authorization, and covers every
      subdomain of an admitted target. */
  lemma AdmissionIsMonotone(lower: Lower, gate: Gate, wider: Gate, target: string, sub: string,
                            c: LegalClass, d: LegalClass)
    requires Check(lower, gate, target, c) == None && Rank(d) <= Rank(c)
    requires gate.authorization.Some? ==>
               wider.authorization.Some? && HostsMatch(lower, wider.authorization.value, gate.authorization.value)
    requires gate.allowIntrusive ==> wider.allowIntrusive
    requires HostsMatch(lower, target, sub)
    ensures Check(lower, wider, sub, d) == None
  {
    if !d.Passive? {
      var w, g := Normalized(lower, wider.authorization.value), Normalized(lower, gate.authorization.value);
      var t, s := Normalized(lower, target), Normalized(lower, sub);
      CoversIsOrder(w, g, t);
      CoversIsOrder(w, t, s);
    }
  }

  /* ---------- telemetry hosts ---------- */

  const TELEMETRY_BLACKLIST := {
    "google-analytics.com", "googletagmanager.com", "doubleclick.net", "facebook.com/tr", "connect.facebook.net",
    "hotjar.com", "segment.io", "segment.com", "mixpanel.com", "amplitude.com", "fullstory.com", "sentry.io",
    "bugsnag.com", "rollbar.com", "newrelic.com", "datadoghq.com"}

  predicate IsListed(names: set<string>, h: string) {
    exists bad :: bad in names && Covers(bad, h)
  }

  /** `is_telemetry_host` */
  predicate IsTelemetryHost(lower: Lower, host: string) {
    IsListed(TELEMETRY_BLACKLIST, RStripDots(lower(host)))
  }

  /** Listed, in the telemetry blacklist or any other, are exactly the hosts that end in a listed
      name's labels, so any labels may be put in front. */
  lemma ListedIsLabelSuffix(names: set<string>, h: string, p: string)
    ensures IsListed(names, h) <==> exists bad :: bad in names && IsSuffix(Labels(bad), Labels(h))
    ensures IsListed(names, h) ==> IsListed(names, p + "." + h)
  {
    hide Labels, IsSuffix;
    forall bad | bad in names ensures Covers(bad, h) <==> IsSuffix(Labels(bad), Labels(h)) {
      CoversIsLabelSuffix(bad, h);
    }
    if bad :| bad in names && Covers(bad, h) {
      var sub := p + "." + h;
      assert sub[|sub| - |h| - 1..] == "." + h;
      CoversIsOrder(bad, h, sub);
    }
  }

  /** `is_telemetry_host` holds exactly of the hosts whose labels, lower-cased and without trailing dots,
      end in those of a listed name, so any subdomain of such a host is one too. */
  lemma TelemetryHostIff(lower: Lower, host: string, sub: string, p: string)
    ensures IsTelemetryHost(lower, host)
       <==> exists bad :: bad in TELEMETRY_BLACKLIST && IsSuffix(Labels(bad), Labels(RStripDots(lower(host))))
    ensures IsTelemetryHost(lower, host) && RStripDots(lower(sub)) == p + "." + RStripDots(lower(host)) ==>
              IsTelemetryHost(lower, sub)
  {
    hide IsListed, RStripDots, Labels, IsSuffix;
    ListedIsLabelSuffix(TELEMETRY_BLACKLIST, RStripDots(lower(host)), p);
  }

  /** The listed hosts and their subdomains are telemetry hosts. */
  lemma ListedHosts(name: string)
    requires name in {"google-analytics.com", "googletagmanager.com", "doubleclick.net", "connect.facebook.net",
                      "hotjar.com", "segment.io", "segment.com", "mixpanel.com", "amplitude.com", "fullstory.com",
                      "sentry.io", "bugsnag.com", "rollbar.com", "newrelic.com", "datadoghq.com"}
    ensures IsListed(TELEMETRY_BLACKLIST, name) && IsListed(TELEMETRY_BLACKLIST, "www." + name)
  {
    assert name in TELEMETRY_BLACKLIST;
    hide *;
    CoveredByItself(TELEMETRY_BLACKLIST, name);
  }

  lemma CoveredByItself(names: set<string>, name: string)
    requires name in names
    ensures IsListed(names, name) && IsListed(names, "www." + name)
  {
    assert ("www." + name)[3..] == "." + name;
    assert Covers(name, name) && Covers(name, "www." + name);
  }
}
