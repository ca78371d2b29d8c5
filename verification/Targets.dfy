/** What `scan` and `watch` make of a target on the command line. */
module Targets {
  import opened HostScope

  /** `str.isspace` of a character. */
  type Space = char -> bool

  const SCHEMES := ["https://", "http://"]

  function LStrip(space: Space, s: string): string {
    if s != "" && space(s[0]) then LStrip(space, s[1..]) else s
  }

  function RStrip(space: Space, s: string): string {
    if s != "" && space(s[|s| - 1]) then RStrip(space, s[..|s| - 1]) else s
  }

  /** `str.strip` */
  function Strip(space: Space, s: string): string {
    RStrip(space, LStrip(space, s))
  }

  function DropScheme(scheme: string, s: string): string {
    if scheme <= s then s[|scheme|..] else s
  }

  function DropSchemes(schemes: seq<string>, s: string): string {
    if schemes == [] then s else DropScheme(schemes[|schemes| - 1], DropSchemes(schemes[..|schemes| - 1], s))
  }

  /** `s.split("/", 1)[0]` */
  function BeforeSlash(s: string): string {
    if s == "" || s[0] == '/' then "" else [s[0]] + BeforeSlash(s[1..])
  }

  function Host(s: string): string {
    RStripDots(BeforeSlash(DropSchemes(SCHEMES, s)))
  }

  function Target(lower: Lower, space: Space, text: string): string {
    Host(lower(Strip(space, text)))
  }

  /** `_normalize_target` */
  method NormalizeTarget(lower: Lower, space: Space, text: string) returns (target: string)
    ensures target == Target(lower, space, text)
  {
    target := lower(Strip(space, text));
    for i := 0 to |SCHEMES|
      invariant target == DropSchemes(SCHEMES[..i], lower(Strip(space, text)))
    {
      assert SCHEMES[..i + 1][..i] == SCHEMES[..i];
      var scheme := SCHEMES[i];
      if scheme <= target {
        target := target[|scheme|..];
      }
    }
    assert SCHEMES[..|SCHEMES|] == SCHEMES;
    target := RStripDots(BeforeSlash(target));
  }

  /* ---------- what `str.lower` does ---------- */

  predicate AllLow(low: char -> bool, s: string) {
    forall i | 0 <= i < |s| :: low(s[i])
  }

  /** Lowering gives characters that lowering leaves alone. */
  ghost predicate Lowers(lower: Lower, low: char -> bool) {
    forall s :: AllLow(low, lower(s)) && (AllLow(low, s) ==> lower(s) == s)
  }

  /* ---------- the shape of a target ---------- */

  predicate Trimmed(space: Space, s: string) {
    s != "" ==> !space(s[0]) && !space(s[|s| - 1])
  }

  lemma {:induction false} BeforeSlashIs(s: string)
    ensures BeforeSlash(s) <= s && '/' !in BeforeSlash(s)
    ensures |BeforeSlash(s)| < |s| ==> s[|BeforeSlash(s)|] == '/'
  {
    if s != "" && s[0] != '/' {
      BeforeSlashIs(s[1..]);
    }
  }

  lemma {:induction false} BeforeSlashStops(a: string, rest: string)
    requires '/' !in a && (rest == "" || rest[0] == '/')
    ensures BeforeSlash(a + rest) == a
  {
    if a == "" {
      assert a + rest == rest;
    } else {
      BeforeSlashStops(a[1..], rest);
      assert (a + rest)[1..] == a[1..] + rest;
    }
  }

  lemma SchemesDropped(s: string)
    ensures DropSchemes(SCHEMES, s) == DropScheme("http://", DropScheme("https://", s))
  {
    assert SCHEMES[..1] == ["https://"] && SCHEMES[..1][..0] == [];
    assert DropSchemes(SCHEMES[..1], s) == DropScheme("https://", s);
  }

  lemma SchemesEndInSlash(scheme: string, s: string)
    requires scheme in SCHEMES && '/' !in s
    ensures DropScheme(scheme, s) == s
  {
    assert scheme[|scheme| - 1] == '/';
    var last := scheme[|scheme| - 1];
    assert scheme <= s ==> last in s;
  }

  lemma LowDropped(low: char -> bool, scheme: string, s: string)
    requires AllLow(low, s)
    ensures AllLow(low, DropScheme(scheme, s))
  {}

  /** A target has no slash, no trailing dot and nothing left to lower. */
  lemma HostShape(low: char -> bool, s: string)
    requires AllLow(low, s)
    ensures '/' !in Host(s) && AllLow(low, Host(s))
    ensures Host(s) != "" ==> Host(s)[|Host(s)| - 1] != '.'
  {
    var u := DropSchemes(SCHEMES, s);
    SchemesDropped(s);
    LowDropped(low, "https://", s);
    LowDropped(low, "http://", DropScheme("https://", s));
    BeforeSlashIs(u);
    RStripIsBare(BeforeSlash(u));
  }

  /** A text without a slash is a host but for the dots at its end. */
  lemma HostOfPlain(s: string)
    requires '/' !in s
    ensures Host(s) == RStripDots(s)
  {
    SchemesDropped(s);
    SchemesEndInSlash(SCHEMES[0], s);
    SchemesEndInSlash(SCHEMES[1], s);
    BeforeSlashStops(s, "");
    assert s + "" == s;
  }

  lemma {:induction false} LStripIs(space: Space, s: string)
    ensures exists k: nat :: k <= |s| && LStrip(space, s) == s[k..]
    ensures LStrip(space, s) == s <==> s == "" || !space(s[0])
    ensures LStrip(space, s) != "" ==> !space(LStrip(space, s)[0])
  {
    if s != "" && space(s[0]) {
      LStripIs(space, s[1..]);
      var k: nat :| k <= |s[1..]| && LStrip(space, s[1..]) == s[1..][k..];
      assert s[1..][k..] == s[k + 1..];
    } else {
      assert s[0..] == s;
    }
  }

  lemma {:induction false} RStripIs(space: Space, s: string)
    ensures RStrip(space, s) <= s
    ensures RStrip(space, s) == s <==> s == "" || !space(s[|s| - 1])
    ensures RStrip(space, s) != "" ==> !space(RStrip(space, s)[|RStrip(space, s)| - 1])
  {
    if s != "" && space(s[|s| - 1]) {
      RStripIs(space, s[..|s| - 1]);
    }
  }

  lemma StripIs(space: Space, s: string)
    ensures forall c | c in Strip(space, s) :: c in s
    ensures |Strip(space, s)| <= |s|
    ensures Strip(space, s) == s <==> Trimmed(space, s)
    ensures Trimmed(space, Strip(space, s))
  {
    hide LStrip, RStrip;
    var l := LStrip(space, s);
    LStripKeeps(space, s);
    LStripIs(space, s);
    RStripIs(space, l);
  }

  lemma LStripKeeps(space: Space, s: string)
    ensures forall c | c in LStrip(space, s) :: c in s
    ensures |LStrip(space, s)| < |s| || LStrip(space, s) == s
  {
    hide LStrip;
    LStripIs(space, s);
    var k: nat :| k <= |s| && LStrip(space, s) == s[k..];
    assert s[0..] == s;
  }

  /** What stands between the schemes and the path of the lowered, stripped text. */
  function Middle(lower: Lower, space: Space, text: string): string {
    BeforeSlash(DropSchemes(SCHEMES, lower(Strip(space, text))))
  }

  /** White space right behind the schemes. */
  predicate SpaceInFront(space: Space, middle: string) {
    middle != "" && space(middle[0])
  }

  /** White space before the path, or before the dots that precede it. */
  predicate SpaceAtEnd(space: Space, middle: string) {
    middle != "" &&
    var n := |middle| - 1;
    if middle[n] == '.' then SpaceAtEnd(space, middle[..n]) else space(middle[n])
  }

  lemma {:induction false} TrimmedHostIff(space: Space, middle: string)
    requires !space('.')
    ensures Trimmed(space, RStripDots(middle)) <==> !SpaceInFront(space, middle) && !SpaceAtEnd(space, middle)
  {
    if middle != "" {
      TrimmedHostIff(space, middle[..|middle| - 1]);
    }
  }

  /** Normalizing a target again changes nothing exactly when the text has no white space right behind
      the schemes, nor before the path and the dots that precede it. */
  lemma TargetTwiceIff(lower: Lower, low: char -> bool, space: Space, text: string)
    requires Lowers(lower, low) && !space('.')
    ensures
      var once, middle := Target(lower, space, text), Middle(lower, space, text);
      Target(lower, space, once) == once <==> !SpaceInFront(space, middle) && !SpaceAtEnd(space, middle)
  {
    TrimmedHostIff(space, Middle(lower, space, text));
    hide Host, Strip, RStripDots, SpaceInFront, SpaceAtEnd, Trimmed;
    var once := Target(lower, space, text);
    assert once == RStripDots(Middle(lower, space, text)) by { HostIs(lower(Strip(space, text))); }
    HostShape(low, lower(Strip(space, text)));
    StripIs(space, once);
    var inner := Strip(space, once);
    assert AllLow(low, inner) by {
      forall i | 0 <= i < |inner| ensures low(inner[i]) { assert inner[i] in once; }
    }
    HostOfPlain(inner);
    RStripIsBare(inner);
    if inner == once {
      NoDotToStrip(once);
    }
  }

  lemma HostIs(s: string)
    ensures Host(s) == RStripDots(BeforeSlash(DropSchemes(SCHEMES, s)))
  {}

  lemma NoDotToStrip(s: string)
    requires s != "" ==> s[|s| - 1] != '.'
    ensures RStripDots(s) == s
  {}

  /** White space left behind a scheme stays, so the second time gives another target. */
  lemma TargetTwiceCounterexample(lower: Lower, space: Space)
    requires lower("http:// a") == "http:// a" && lower("a") == "a"
    requires space(' ') && !space('h') && !space('a')
    ensures Target(lower, space, "http:// a") == " a" && Target(lower, space, " a") == "a"
  {
    assert LStrip(space, " a") == "a" by { assert " a"[1..] == "a"; }
    SchemesDropped("http:// a");
    assert "http:// a"[7..] == " a";
    BeforeSlashStops(" a", "");
    assert " a" + "" == " a";
    HostOfPlain("a");
  }

  /* ---------- addresses of one host ---------- */

  /** A scheme, a path, trailing dots, upper case and white space around it all make no difference: every
      address of a host gives one target. */
  lemma AddressesOfOneHost(lower: Lower, space: Space, text: string, scheme: string, host: string, path: string)
    requires lower(Strip(space, text)) == scheme + host + path
    requires scheme == "" || scheme in SCHEMES
    requires path == "" || path[0] == '/'
    requires '/' !in host && (host == "http:" || host == "https:" ==> !("//" <= path))
    ensures Target(lower, space, text) == RStripDots(host)
  {
    hide Host, Strip, RStripDots;
    HostOfAddress(scheme, host, path);
  }

  lemma HostOfAddress(scheme: string, host: string, path: string)
    requires scheme == "" || scheme in SCHEMES
    requires path == "" || path[0] == '/'
    requires '/' !in host && (host == "http:" || host == "https:" ==> !("//" <= path))
    ensures Host(scheme + host + path) == RStripDots(host)
  {
    hide RStripDots, DropScheme, BeforeSlash;
    var s := scheme + host + path;
    SchemesDropped(s);
    NoScheme(host, path, "https://", "https:");
    NoScheme(host, path, "http://", "http:");
    BeforeSlashStops(host, path);
    assert "" + host + path == host + path;
    assert scheme + host + path == scheme + (host + path);
    if scheme == "https://" {
      SchemeOff("https://", host + path);
    } else if scheme == "http://" {
      SchemeOff("http://", host + path);
      assert s[4] == ':' && "https://"[4] == 's';
      SchemeStays("https://", s);
    }
  }

  lemma SchemeOff(scheme: string, rest: string)
    ensures DropScheme(scheme, scheme + rest) == rest
  {}

  lemma SchemeStays(scheme: string, s: string)
    requires |scheme| == 8 && |s| > 4 && s[4] != scheme[4]
    ensures DropScheme(scheme, s) == s
  {}

  /** A scheme ends at its second slash, so a text whose part before the first slash is no scheme
      begins with none. */
  lemma NoScheme(host: string, path: string, scheme: string, front: string)
    requires scheme == front + "//" && '/' !in front && '/' !in host && (host == front ==> !("//" <= path))
    requires path == "" || path[0] == '/'
    ensures DropScheme(scheme, host + path) == host + path
  {
    var s := host + path;
    if scheme <= s {
      var rest := "//" + s[|scheme|..];
      assert s == front + rest;
      OneCut(front, rest, host, path);
    }
  }

  lemma OneCut(a: string, x: string, b: string, y: string)
    requires a + x == b + y && '/' !in a && '/' !in b
    requires (x == "" || x[0] == '/') && (y == "" || y[0] == '/')
    ensures a == b && x == y
  {
    BeforeSlashStops(a, x);
    BeforeSlashStops(b, y);
    assert (a + x)[|a|..] == x && (b + y)[|b|..] == y;
  }
}
