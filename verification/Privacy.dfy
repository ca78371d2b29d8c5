/** E-mail redaction: a leftmost, greedy substitution whose output holds no further match. */
module Privacy {
  import opened Json

  /** What the pattern and `str.lower` take from the Unicode tables: any word class that leaves out
      the characters the pattern itself uses, and the brackets of the placeholder. */
  datatype Unicode = Unicode(isWord: char -> bool, lower: string -> string)

  predicate Sane(u: Unicode) {
    !u.isWord('@') && !u.isWord('.') && !u.isWord('[') && !u.isWord(']')
  }

  type Class = char -> bool

  /** `[\w.+-]` */
  function Local(u: Unicode): Class { c => u.isWord(c) || c == '.' || c == '+' || c == '-' }

  /** `[\w-]` */
  function Host(u: Unicode): Class { c => u.isWord(c) || c == '-' }

  /** `[\w.-]` */
  function Tail(u: Unicode): Class { c => u.isWord(c) || c == '.' || c == '-' }

  predicate All(p: Class, s: string) { forall i | 0 <= i < |s| :: p(s[i]) }

  /* ---------- what the pattern means ---------- */

  /** The parts of a whole match: local part '@' label '.' tail. */
  ghost predicate Parts(u: Unicode, m: string, at: nat, dot: nat) {
    && 0 < at && at + 1 < dot && dot + 1 < |m|
    && m[at] == '@' && m[dot] == '.'
    && All(Local(u), m[..at])
    && All(Host(u), m[at + 1..dot])
    && All(Tail(u), m[dot + 1..])
  }

  /** The text is an e-mail address by the pattern. */
  ghost predicate IsMail(u: Unicode, m: string) {
    exists at: nat, dot: nat :: Parts(u, m, at, dot)
  }

  /** No part of the text is an e-mail address. */
  ghost predicate MailFree(u: Unicode, s: string) {
    forall i, j | 0 <= i <= j <= |s| :: !IsMail(u, s[i..j])
  }

  /* ---------- how the engine matches ---------- */

  /** How far a greedy character class reaches. */
  function Span(p: Class, s: string): (n: nat)
    ensures n <= |s|
  {
    if s != "" && p(s[0]) then 1 + Span(p, s[1..]) else 0
  }

  /** The length of the match at the start of the text, or 0: each greedy run must end at its
      delimiter, which is in none of the runs before it, so backtracking finds nothing more. */
  function MatchLength(u: Unicode, s: string): (n: nat)
    ensures n <= |s|
  {
    var at := Span(Local(u), s);
    if at == 0 || at == |s| || s[at] != '@' then 0
    else
      var host := Span(Host(u), s[at + 1..]);
      var dot := at + 1 + host;
      if host == 0 || dot == |s| || s[dot] != '.' then 0
      else
        var tail := Span(Tail(u), s[dot + 1..]);
        if tail == 0 then 0 else dot + 1 + tail
  }

  const PLACEHOLDER := "[REDACTED:email]"
  const PII_PLACEHOLDER := "[REDACTED:AVG-art-5]"

  /** `_EMAIL_RE.sub`: leftmost matches, one after the other. */
  function Redact(u: Unicode, s: string): string
    decreases |s|
  {
    if s == "" then ""
    else
      var n := MatchLength(u, s);
      if n > 0 then PLACEHOLDER + Redact(u, s[n..]) else [s[0]] + Redact(u, s[1..])
  }

  /* ---------- the engine finds exactly the greedy match ---------- */

  lemma {:induction false} SpanIsMaximal(p: Class, s: string)
    ensures All(p, s[..Span(p, s)])
    ensures Span(p, s) < |s| ==> !p(s[Span(p, s)])
  {
    if s != "" && p(s[0]) {
      SpanIsMaximal(p, s[1..]);
      assert s[..Span(p, s)] == [s[0]] + s[1..][..Span(p, s[1..])];
    }
  }

  /** A run that ends at a character outside the class is the whole span. */
  lemma {:induction false} SpanIs(p: Class, s: string, n: nat)
    requires n <= |s| && All(p, s[..n]) && (n == |s| || !p(s[n]))
    ensures Span(p, s) == n
  {
    if n > 0 {
      assert p(s[..n][0]);
      assert s[1..][..n - 1] == s[..n][1..];
      SpanIs(p, s[1..], n - 1);
    }
  }

  /** A run inside the class is within the span. */
  lemma {:induction false} SpanAtLeast(p: Class, s: string, n: nat)
    requires n <= |s| && All(p, s[..n])
    ensures n <= Span(p, s)
  {
    if n > 0 {
      assert p(s[..n][0]);
      assert s[1..][..n - 1] == s[..n][1..];
      SpanAtLeast(p, s[1..], n - 1);
    }
  }

  /** The span from a place, as a stretch of the text. */
  lemma SpanFrom(p: Class, s: string, from: nat)
    requires from <= |s|
    ensures
      var to := from + Span(p, s[from..]);
      to <= |s| && All(p, s[from..to])
  {
    SpanIsMaximal(p, s[from..]);
    assert s[from..from + Span(p, s[from..])] == s[from..][..Span(p, s[from..])];
  }

  lemma MatchIsMail(u: Unicode, s: string)
    requires MatchLength(u, s) > 0
    ensures IsMail(u, s[..MatchLength(u, s)])
  {
    hide Span, Local, Host, Tail, All;
    var at := Span(Local(u), s);
    var dot := at + 1 + Span(Host(u), s[at + 1..]);
    var n := MatchLength(u, s);
    SpanFrom(Local(u), s, 0);
    assert s[0..] == s && s[0..at] == s[..at];
    SpanFrom(Host(u), s, at + 1);
    SpanFrom(Tail(u), s, dot + 1);
    PartsOfPrefix(u, s, n, at, dot);
  }

  /** The runs of a match, seen in the whole text. */
  lemma PartsOfPrefix(u: Unicode, s: string, n: nat, at: nat, dot: nat)
    requires 0 < at && at + 1 < dot && dot + 1 < n <= |s|
    ensures Parts(u, s[..n], at, dot)
       <==> && s[at] == '@' && s[dot] == '.' && All(Local(u), s[..at])
            && All(Host(u), s[at + 1..dot]) && All(Tail(u), s[dot + 1..n])
  {
    hide All, Local, Host, Tail;
    var m := s[..n];
    assert m[..at] == s[..at] && m[at + 1..dot] == s[at + 1..dot] && m[dot + 1..] == s[dot + 1..n];
  }

  /** Each delimiter is outside the class of the run before it. */
  lemma ClassesStop(u: Unicode)
    requires Sane(u)
    ensures !Local(u)('@') && !Host(u)('.')
  {}

  lemma RunIs(p: Class, s: string, from: nat, to: nat)
    requires from <= to < |s| && All(p, s[from..to]) && !p(s[to])
    ensures Span(p, s[from..]) == to - from
  {
    assert s[from..to] == s[from..][..to - from];
    SpanIs(p, s[from..], to - from);
  }

  lemma RunAtLeast(p: Class, s: string, from: nat, to: nat)
    requires from <= to <= |s| && All(p, s[from..to])
    ensures to - from <= Span(p, s[from..])
  {
    assert s[from..to] == s[from..][..to - from];
    SpanAtLeast(p, s[from..], to - from);
  }

  lemma MatchFromRuns(u: Unicode, s: string, at: nat, dot: nat, j: nat)
    requires 0 < at && at + 1 < dot && dot + 1 < j <= |s| && s[at] == '@' && s[dot] == '.'
    requires Span(Local(u), s) == at && Span(Host(u), s[at + 1..]) == dot - (at + 1)
    requires j - (dot + 1) <= Span(Tail(u), s[dot + 1..])
    ensures j <= MatchLength(u, s)
  {
    hide Span, Local, Host, Tail;
  }

  /** Any match at the start lies within the one the engine takes. */
  lemma MailIsMatched(u: Unicode, s: string, j: nat)
    requires Sane(u) && j <= |s| && IsMail(u, s[..j])
    ensures j <= MatchLength(u, s)
  {
    ClassesStop(u);
    hide Span, Local, Host, Tail, All, MatchLength, Sane;
    var at: nat, dot: nat :| Parts(u, s[..j], at, dot);
    PartsOfPrefix(u, s, j, at, dot);
    SpanIs(Local(u), s, at);
    RunIs(Host(u), s, at + 1, dot);
    RunAtLeast(Tail(u), s, dot + 1, j);
    MatchFromRuns(u, s, at, dot, j);
  }

  /** The engine's match is the longest e-mail address at that place, and it finds one whenever there
      is one. */
  lemma MatchLengthIs(u: Unicode, s: string, n: nat)
    requires Sane(u) && n <= |s|
    ensures MatchLength(u, s) == n
       <==> if n == 0 then forall j | 0 <= j <= |s| :: !IsMail(u, s[..j])
            else IsMail(u, s[..n]) && forall j | n < j <= |s| :: !IsMail(u, s[..j])
  {
    forall j | 0 <= j <= |s| && IsMail(u, s[..j]) ensures 0 < j <= MatchLength(u, s) {
      MailIsMatched(u, s, j);
    }
    if MatchLength(u, s) > 0 { MatchIsMail(u, s); }
  }

  /* ---------- the output holds no match ---------- */

  /** A match holds an '@' and no bracket. */
  lemma NotMail(u: Unicode, m: string)
    requires Sane(u) && ('[' in m || ']' in m || '@' !in m)
    ensures !IsMail(u, m)
  {
    forall at: nat, dot: nat ensures !Parts(u, m, at, dot) {
      PartsHaveNoBracket(u, m, at, dot);
    }
  }

  lemma PartsHaveNoBracket(u: Unicode, m: string, at: nat, dot: nat)
    requires Sane(u)
    ensures Parts(u, m, at, dot) ==> '[' !in m && ']' !in m && '@' in m
  {
    if Parts(u, m, at, dot) {
      forall i | 0 <= i < |m| ensures m[i] != '[' && m[i] != ']' {
        if i < at { assert m[..at][i] == m[i]; }
        else if at < i < dot { assert m[at + 1..dot][i - at - 1] == m[i]; }
        else if dot < i { assert m[dot + 1..][i - dot - 1] == m[i]; }
      }
      assert m[at] in m;
    }
  }

  lemma PlaceholderPartIsNotMail(u: Unicode, i: nat, j: nat)
    requires Sane(u) && i <= j <= |PLACEHOLDER|
    ensures !IsMail(u, PLACEHOLDER[i..j])
  {
    assert forall k | 0 <= k < |PLACEHOLDER| :: PLACEHOLDER[k] != '@';
    NotMail(u, PLACEHOLDER[i..j]);
  }

  lemma PartOfMiddle(left: string, middle: string, right: string, i: nat, j: nat)
    requires |left| <= i <= j <= |left| + |middle|
    ensures (left + middle + right)[i..j] == middle[i - |left|..j - |left|]
  {}

  /** The placeholder's brackets keep what is left of it apart from what is right of it. */
  lemma PlaceholderSeparates(u: Unicode, left: string, right: string)
    requires Sane(u) && MailFree(u, left) && MailFree(u, right)
    ensures MailFree(u, left + PLACEHOLDER + right)
  {
    hide IsMail;
    var s := left + PLACEHOLDER + right;
    var open, close := |left|, |left| + |PLACEHOLDER| - 1;
    assert s[open] == '[' && s[close] == ']';
    forall i, j | 0 <= i <= j <= |s| ensures !IsMail(u, s[i..j]) {
      if j <= open {
        assert s[i..j] == left[i..j];
      } else if close < i {
        assert s[i..j] == right[i - close - 1..j - close - 1];
      } else if i <= open {
        assert s[i..j][open - i] == '[';
        NotMail(u, s[i..j]);
      } else if close < j {
        assert s[i..j][close - i] == ']';
        NotMail(u, s[i..j]);
      } else {
        assert |left| <= i && j <= |left| + |PLACEHOLDER|;
        PartOfMiddle(left, PLACEHOLDER, right, i, j);
        PlaceholderPartIsNotMail(u, i - open, j - open);
      }
    }
  }

  /** Where the leftmost match starts, or the length of the text. */
  function FirstMatch(u: Unicode, s: string): (f: nat)
    ensures f <= |s|
  {
    if s == "" || MatchLength(u, s) > 0 then 0 else 1 + FirstMatch(u, s[1..])
  }

  lemma {:induction false} FirstMatchIsLeftmost(u: Unicode, s: string)
    ensures forall i | 0 <= i < FirstMatch(u, s) :: MatchLength(u, s[i..]) == 0
    ensures FirstMatch(u, s) < |s| ==> MatchLength(u, s[FirstMatch(u, s)..]) > 0
  {
    if s != "" && MatchLength(u, s) == 0 {
      FirstMatchIsLeftmost(u, s[1..]);
      forall i | 0 <= i < FirstMatch(u, s) ensures MatchLength(u, s[i..]) == 0 {
        if i > 0 { assert s[i..] == s[1..][i - 1..]; } else { assert s[0..] == s; }
      }
      var f := FirstMatch(u, s);
      assert s[f..] == s[1..][f - 1..];
    } else {
      assert s[0..] == s;
    }
  }

  lemma GapIsMailFree(u: Unicode, s: string)
    requires Sane(u)
    ensures MailFree(u, s[..FirstMatch(u, s)])
  {
    hide IsMail, MatchLength;
    var f := FirstMatch(u, s);
    FirstMatchIsLeftmost(u, s);
    forall i, j | 0 <= i <= j <= f ensures !IsMail(u, s[..f][i..j]) {
      if i == j {
        NotMail(u, s[..f][i..j]);
      } else {
        assert s[..f][i..j] == s[i..][..j - i];
        MatchLengthIs(u, s[i..], 0);
      }
    }
  }

  /** The rest of the text after the leftmost match. */
  function AfterMatch(u: Unicode, s: string): (rest: string)
    requires FirstMatch(u, s) < |s|
    ensures |rest| < |s|
  {
    var f := FirstMatch(u, s);
    FirstMatchIsLeftmost(u, s);
    s[f + MatchLength(u, s[f..])..]
  }

  /** Passing over a character that starts no match. */
  lemma SkipOne(u: Unicode, s: string)
    requires s != "" && MatchLength(u, s) == 0
    ensures FirstMatch(u, s) == 1 + FirstMatch(u, s[1..])
    ensures FirstMatch(u, s) < |s| ==> AfterMatch(u, s) == AfterMatch(u, s[1..])
  {
    hide MatchLength;
    var f := FirstMatch(u, s);
    if f < |s| {
      assert s[f..] == s[1..][f - 1..];
    }
  }

  lemma MatchAtStart(u: Unicode, s: string)
    requires MatchLength(u, s) > 0
    ensures FirstMatch(u, s) == 0 < |s| && AfterMatch(u, s) == s[MatchLength(u, s)..]
    ensures Redact(u, s) == PLACEHOLDER + Redact(u, AfterMatch(u, s))
  {
    hide MatchLength;
    assert s[0..] == s;
  }

  function RestText(u: Unicode, s: string): string {
    if FirstMatch(u, s) == |s| then "" else PLACEHOLDER + Redact(u, AfterMatch(u, s))
  }

  lemma {:induction false} RedactByGaps(u: Unicode, s: string)
    ensures Redact(u, s) == s[..FirstMatch(u, s)] + RestText(u, s)
  {
    hide MatchLength, FirstMatch, AfterMatch;
    if s == "" {
      assert FirstMatch(u, s) == 0;
    } else if MatchLength(u, s) == 0 {
      SkipOne(u, s);
      RedactByGaps(u, s[1..]);
      assert s[..FirstMatch(u, s)] == [s[0]] + s[1..][..FirstMatch(u, s[1..])];
      assert RestText(u, s) == RestText(u, s[1..]);
    } else {
      MatchAtStart(u, s);
      assert s[..0] + RestText(u, s) == RestText(u, s);
    }
  }

  /** Main result: what is left holds no e-mail address anywhere, not even across a placeholder. */
  lemma {:induction false} RedactedIsMailFree(u: Unicode, s: string)
    requires Sane(u)
    ensures MailFree(u, Redact(u, s))
    decreases |s|
  {
    RedactByGaps(u, s);
    GapIsMailFree(u, s);
    var f := FirstMatch(u, s);
    if f == |s| {
      assert s[..f] + "" == s[..f];
    } else {
      RedactedIsMailFree(u, AfterMatch(u, s));
      PlaceholderSeparates(u, s[..f], Redact(u, AfterMatch(u, s)));
      assert s[..f] + (PLACEHOLDER + Redact(u, AfterMatch(u, s))) == s[..f] + PLACEHOLDER + Redact(u, AfterMatch(u, s));
    }
  }

  lemma MailFreeHasNoMatch(u: Unicode, s: string)
    requires MailFree(u, s)
    ensures MatchLength(u, s) == 0
  {
    hide IsMail, MatchLength;
    var n := MatchLength(u, s);
    assert s[0..n] == s[..n];
    if n > 0 { MatchIsMail(u, s); }
  }

  lemma {:induction false} MailFreeIsUnchanged(u: Unicode, s: string)
    requires MailFree(u, s)
    ensures Redact(u, s) == s
  {
    hide IsMail, MatchLength;
    if s != "" {
      MailFreeHasNoMatch(u, s);
      forall i, j | 0 <= i <= j <= |s[1..]| ensures !IsMail(u, s[1..][i..j]) {
        assert s[1..][i..j] == s[i + 1..j + 1];
      }
      MailFreeIsUnchanged(u, s[1..]);
    }
  }

  /** The text changes exactly when it holds an e-mail address. */
  lemma RedactChangesIff(u: Unicode, s: string)
    requires Sane(u)
    ensures Redact(u, s) == s <==> MailFree(u, s)
    ensures Redact(u, Redact(u, s)) == Redact(u, s)
  {
    RedactedIsMailFree(u, s);
    if MailFree(u, s) { MailFreeIsUnchanged(u, s); }
    MailFreeIsUnchanged(u, Redact(u, s));
  }

  /* ---------- everything else is kept ---------- */

  datatype Piece = Kept(text: string) | Mail(text: string)

  /** The text cut at its matches. */
  function Pieces(u: Unicode, s: string): seq<Piece>
    decreases |s|
  {
    var f := FirstMatch(u, s);
    if f == |s| then [Kept(s)]
    else [Kept(s[..f]), Mail(s[f..|s| - |AfterMatch(u, s)|])] + Pieces(u, AfterMatch(u, s))
  }

  function Original(pieces: seq<Piece>): string {
    if pieces == [] then "" else pieces[0].text + Original(pieces[1..])
  }

  function Rendered(pieces: seq<Piece>): string {
    if pieces == [] then ""
    else (if pieces[0].Mail? then PLACEHOLDER else pieces[0].text) + Rendered(pieces[1..])
  }

  ghost predicate FairPieces(u: Unicode, pieces: seq<Piece>) {
    forall p | p in pieces :: if p.Mail? then IsMail(u, p.text) else MailFree(u, p.text)
  }

  lemma TwoMorePieces(a: Piece, b: Piece, rest: seq<Piece>)
    ensures Original([a, b] + rest) == a.text + (b.text + Original(rest))
    ensures Rendered([a, b] + rest)
         == (if a.Mail? then PLACEHOLDER else a.text) + ((if b.Mail? then PLACEHOLDER else b.text) + Rendered(rest))
  {
    assert ([a, b] + rest)[1..] == [b] + rest && ([b] + rest)[1..] == rest;
  }

  /** Redaction replaces e-mail addresses and keeps the text between them, in order. */
  lemma {:induction false} RedactKeepsTheRest(u: Unicode, s: string)
    requires Sane(u)
    ensures Original(Pieces(u, s)) == s && Rendered(Pieces(u, s)) == Redact(u, s) && FairPieces(u, Pieces(u, s))
    decreases |s|
  {
    hide IsMail, MatchLength, MailFree, FirstMatch, AfterMatch, Redact, Original, Rendered, FairPieces;
    var f := FirstMatch(u, s);
    RedactByGaps(u, s);
    GapIsMailFree(u, s);
    if f == |s| {
      OnePiece(u, s);
    } else {
      var rest := AfterMatch(u, s);
      CutAtMatch(u, s);
      var mail := s[f..|s| - |rest|];
      RedactKeepsTheRest(u, rest);
      TwoMorePieces(Kept(s[..f]), Mail(mail), Pieces(u, rest));
      FairAppend(u, [Kept(s[..f]), Mail(mail)], Pieces(u, rest));
    }
  }

  lemma OnePiece(u: Unicode, s: string)
    requires MailFree(u, s[..|s|])
    ensures Original([Kept(s)]) == s && Rendered([Kept(s)]) == s[..|s|] + "" && FairPieces(u, [Kept(s)])
  {
    hide MailFree;
    assert s[..|s|] == s && [Kept(s)][1..] == [];
  }

  lemma FairAppend(u: Unicode, a: seq<Piece>, b: seq<Piece>)
    requires FairPieces(u, a) && FairPieces(u, b)
    ensures FairPieces(u, a + b)
  {}

  /** The match between what is before it and what is after it. */
  lemma CutAtMatch(u: Unicode, s: string)
    requires FirstMatch(u, s) < |s|
    ensures
      var f, rest := FirstMatch(u, s), AfterMatch(u, s);
      f + |rest| <= |s| && IsMail(u, s[f..|s| - |rest|]) && s == s[..f] + (s[f..|s| - |rest|] + rest)
  {
    hide IsMail, MatchLength, FirstMatch;
    var f := FirstMatch(u, s);
    var n := MatchLength(u, s[f..]);
    FirstMatchIsLeftmost(u, s);
    MatchIsMail(u, s[f..]);
    assert AfterMatch(u, s) == s[f + n..];
    assert s[f..f + n] == s[f..][..n];
    assert s == s[..f] + (s[f..f + n] + s[f + n..]);
  }

  /* ---------- redact_whois ---------- */

  /** A WHOIS value: a string, or anything else. */
  datatype Field = Text(text: string) | Other(value: Json)

  type Record = map<string, Field>

  const WHOIS_PII_FIELDS := {
    "registrant_name", "registrant", "name", "admin_name", "tech_name", "billing_name",
    "registrant_email", "admin_email", "tech_email", "billing_email",
    "registrant_phone", "admin_phone", "tech_phone",
    "registrant_street", "registrant_address", "address", "registrant_postal_code", "registrant_postalcode"}

  function RedactField(u: Unicode, key: string, value: Field): Field {
    if u.lower(key) in WHOIS_PII_FIELDS then Text(PII_PLACEHOLDER)
    else if value.Text? then Text(Redact(u, value.text))
    else value
  }

  method RedactWhois(u: Unicode, record: Record, showPii: bool) returns (cleaned: Record)
    ensures cleaned.Keys == record.Keys
    ensures showPii ==> cleaned == record
    ensures !showPii ==> forall key | key in record :: cleaned[key] == RedactField(u, key, record[key])
  {
    if showPii {
      return record;
    }
    cleaned := map[];
    var todo := record.Keys;
    while todo != {}
      invariant todo <= record.Keys && cleaned.Keys == record.Keys - todo
      invariant forall key | key in cleaned :: cleaned[key] == RedactField(u, key, record[key])
      decreases |todo|
    {
      var key :| key in todo;
      todo := todo - {key};
      cleaned := cleaned[key := RedactField(u, key, record[key])];
    }
  }

  /** What is no string stays, what holds no address stays, and of other strings the addresses go and the rest
      stays in order. */
  ghost predicate KeepsTheRest(u: Unicode, value: Field, field: Field) {
    && (!value.Text? ==> field == value)
    && (value.Text? && MailFree(u, value.text) ==> field == value)
    && (value.Text? ==>
          field.Text? && exists pieces ::
            FairPieces(u, pieces) && Original(pieces) == value.text && Rendered(pieces) == field.text)
  }

  /** A redacted field names no PII and holds no e-mail address; redacting it again changes nothing. */
  lemma RedactedFieldIsClean(u: Unicode, key: string, value: Field)
    requires Sane(u)
    ensures
      var field := RedactField(u, key, value);
      && (field.Text? ==> MailFree(u, field.text))
      && (u.lower(key) in WHOIS_PII_FIELDS ==> field == Text("[REDACTED:AVG-art-5]"))
      && (field.Text? <==> value.Text? || u.lower(key) in WHOIS_PII_FIELDS)
      && RedactField(u, key, field) == field
      && (u.lower(key) !in WHOIS_PII_FIELDS ==> KeepsTheRest(u, value, field))
  {
    if value.Text? { RedactKeepsTheRest(u, value.text); }
    if u.lower(key) in WHOIS_PII_FIELDS {
      assert forall k | 0 <= k < |PII_PLACEHOLDER| :: PII_PLACEHOLDER[k] != '@';
      forall i, j | 0 <= i <= j <= |PII_PLACEHOLDER| ensures !IsMail(u, PII_PLACEHOLDER[i..j]) {
        NotMail(u, PII_PLACEHOLDER[i..j]);
      }
    } else if value.Text? {
      RedactedIsMailFree(u, value.text);
      RedactChangesIff(u, value.text);
    }
  }

  /* ---------- what is recognized ---------- */

  /** Name and e-mail of all roles are PII, the phones of three, and the registrant's addresses. */
  lemma PiiFieldsAre()
    ensures {"registrant_name", "admin_name", "tech_name", "billing_name"} <= WHOIS_PII_FIELDS
    ensures {"registrant_email", "admin_email", "tech_email", "billing_email"} <= WHOIS_PII_FIELDS
    ensures {"registrant_phone", "admin_phone", "tech_phone"} <= WHOIS_PII_FIELDS
    ensures "billing_phone" !in WHOIS_PII_FIELDS
    ensures {"registrant", "name", "address", "registrant_street", "registrant_address"} <= WHOIS_PII_FIELDS
    ensures {"registrant_postal_code", "registrant_postalcode"} <= WHOIS_PII_FIELDS
  {}

  /** The characters besides those of words that an address may hold, before the sign, before the first dot
      behind it, and after that. */
  lemma AddressCharacters(u: Unicode)
    requires Sane(u)
    ensures Local(u)('.') && Local(u)('+') && Local(u)('-') && !Local(u)('@')
    ensures Host(u)('-') && !Host(u)('.') && (Host(u)('+') <==> u.isWord('+'))
    ensures Tail(u)('.') && Tail(u)('-') && (Tail(u)('+') <==> u.isWord('+')) && !Tail(u)('@')
  {}

  /** The engine takes an address whole. */
  lemma WholeAddress(u: Unicode, local: string, host: string, tail: string, rest: string)
    requires Sane(u) && local != "" && host != "" && tail != ""
    requires All(Local(u), local) && All(Host(u), host) && All(Tail(u), tail)
    requires rest != "" && !Tail(u)(rest[0])
    ensures MatchLength(u, local + ("@" + (host + ("." + (tail + rest))))) == |local| + |host| + |tail| + 2
  {
    AddressCharacters(u);
    var afterDot := tail + rest;
    var afterAt := host + ("." + afterDot);
    var s := local + ("@" + afterAt);
    SpanOf(Local(u), local, "@" + afterAt);
    SpanOf(Host(u), host, "." + afterDot);
    SpanOf(Tail(u), tail, rest);
    hide Span, Local, Host, Tail, All;
    assert s[|local|] == '@' && s[|local| + 1..] == afterAt;
    var dot := |local| + 1 + |host|;
    assert s[dot] == '.' && s[dot + 1..] == afterDot;
  }

  /** An address between brackets is replaced, and the brackets stay. */
  lemma AddressIsRedacted(u: Unicode, local: string, host: string, tail: string)
    requires Sane(u) && local != "" && host != "" && tail != ""
    requires All(Local(u), local) && All(Host(u), host) && All(Tail(u), tail)
    requires !u.isWord('<') && !u.isWord('>')
    ensures Redact(u, "<" + (local + ("@" + (host + ("." + (tail + ">")))))) == "<[REDACTED:email]>"
  {
    hide Redact, MatchLength, Local, Host, All;
    var mail := local + ("@" + (host + ("." + (tail + ">"))));
    var n := |local| + |host| + |tail| + 2;
    WholeAddress(u, local, host, tail, ">");
    assert mail[n..] == ">";
    RedactMatch(u, mail);
    RedactKept(u, '<', mail);
    RedactKept(u, '>', "");
    assert ['<'] + mail == "<" + mail && ['>'] + "" == ">";
  }

  lemma RedactMatch(u: Unicode, s: string)
    ensures MatchLength(u, s) > 0 ==> Redact(u, s) == "[REDACTED:email]" + Redact(u, s[MatchLength(u, s)..])
  {}

  lemma RedactKept(u: Unicode, c: char, s: string)
    requires !u.isWord(c) && c != '.' && c != '+' && c != '-'
    ensures Redact(u, [c] + s) == [c] + Redact(u, s) && Redact(u, "") == ""
  {
    NoAddressStarts(u, c, s);
    assert ([c] + s)[1..] == s;
  }

  lemma NoAddressStarts(u: Unicode, c: char, s: string)
    requires !Local(u)(c)
    ensures MatchLength(u, [c] + s) == 0
  {
    assert ([c] + s)[0] == c;
  }

  lemma {:induction false} SpanOf(p: Class, s: string, rest: string)
    requires All(p, s) && rest != "" && !p(rest[0])
    ensures Span(p, s + rest) == |s|
  {
    if s == "" {
      assert s + rest == rest;
    } else {
      SpanOf(p, s[1..], rest);
      assert (s + rest)[1..] == s[1..] + rest;
    }
  }
}
