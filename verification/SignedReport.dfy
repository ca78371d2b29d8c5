/** Signing a report, writing it to a file, reading it back and verifying it.
    A report is its dump: the entries of the JSON object `model_dump` returns. */
module SignedReport {
  import opened Text
  import opened Json
  import opened JsonRoundTrip
  import opened JsonCanonical
  import opened JsonLoads

  const SIGNATURE := "signature"
  const SIGNING_PUBKEY := "signing_pubkey"
  const OTS_PROOF_PATH := "ots_proof_path"

  const NOT_COVERED := {SIGNATURE, SIGNING_PUBKEY, OTS_PROOF_PATH}

  function Without(entries: seq<Entry>, keys: set<string>): seq<Entry> {
    if entries == [] then []
    else if entries[0].key in keys then Without(entries[1..], keys)
    else [entries[0]] + Without(entries[1..], keys)
  }

  /** The dict comprehension of `verify`: every entry the signature covers. */
  function Strip(entries: seq<Entry>): seq<Entry> {
    Without(entries, NOT_COVERED)
  }

  /** `data.pop(key, None)` */
  function Pop(entries: seq<Entry>, key: string): seq<Entry> {
    if entries == [] then []
    else if entries[0].key == key then entries[1..]
    else [entries[0]] + Pop(entries[1..], key)
  }

  lemma {:induction false} WithoutAbsent(entries: seq<Entry>, keys: set<string>)
    requires forall i | 0 <= i < |entries| :: entries[i].key !in keys
    ensures Without(entries, keys) == entries
  {
    if entries != [] { WithoutAbsent(entries[1..], keys); }
  }

  lemma {:induction false} PopIsWithout(entries: seq<Entry>, key: string)
    requires UniqueKeys(entries)
    ensures Pop(entries, key) == Without(entries, {key})
  {
    if entries != [] {
      if entries[0].key == key {
        WithoutAbsent(entries[1..], {key});
      } else {
        PopIsWithout(entries[1..], key);
      }
    }
  }

  lemma {:induction false} WithoutTwice(entries: seq<Entry>, a: set<string>, b: set<string>)
    ensures Without(Without(entries, a), b) == Without(entries, a + b)
  {
    if entries != [] {
      WithoutTwice(entries[1..], a, b);
      if entries[0].key !in a {
        assert ([entries[0]] + Without(entries[1..], a))[1..] == Without(entries[1..], a);
      }
    }
  }

  lemma {:induction false} WithoutIsUnique(entries: seq<Entry>, keys: set<string>)
    requires UniqueKeys(entries)
    ensures UniqueKeys(Without(entries, keys))
    ensures forall e | e in Without(entries, keys) :: e in entries && e.key !in keys
  {
    if entries != [] {
      WithoutIsUnique(entries[1..], keys);
      var tail := Without(entries[1..], keys);
      forall i | 0 <= i < |tail| ensures tail[i].key != entries[0].key {
        assert tail[i] in entries[1..];
      }
    }
  }

  /** `_unsigned_view`: the three pops that `scan` signs leave what `verify` strips the file to. */
  method UnsignedView(dump: seq<Entry>) returns (data: seq<Entry>)
    requires UniqueKeys(dump)
    ensures data == Strip(dump)
  {
    data := dump;
    PopIsWithout(data, SIGNATURE);
    WithoutIsUnique(dump, {SIGNATURE});
    data := Pop(data, SIGNATURE);
    PopIsWithout(data, SIGNING_PUBKEY);
    WithoutIsUnique(data, {SIGNING_PUBKEY});
    WithoutTwice(dump, {SIGNATURE}, {SIGNING_PUBKEY});
    data := Pop(data, SIGNING_PUBKEY);
    PopIsWithout(data, OTS_PROOF_PATH);
    WithoutTwice(dump, {SIGNATURE} + {SIGNING_PUBKEY}, {OTS_PROOF_PATH});
    data := Pop(data, OTS_PROOF_PATH);
    assert {SIGNATURE} + {SIGNING_PUBKEY} + {OTS_PROOF_PATH} == NOT_COVERED;
  }

  /** The text `scan` signs and the text `verify` checks. */
  function SignedText(entries: seq<Entry>): string {
    Canonicalize(Obj(Strip(entries)))
  }

  /** `model_copy(update=...)` with the signature and the key it was made with. */
  function Signed(dump: seq<Entry>, signature: string, pubkey: string): seq<Entry> {
    Put(Put(dump, SIGNATURE, Str(signature)), SIGNING_PUBKEY, Str(pubkey))
  }

  /* ---------- verify ---------- */

  datatype Verdict = Raises | NotSigned | Valid | Invalid

  /** The Ed25519 check; None where decoding the key or the signature raises. */
  type Check = (string, string, string) -> Option<bool>

  predicate AllZeros(s: string) { forall i | 0 <= i < |s| :: s[i] == '0' }

  /** Python truth of a loaded value; a missing key reads as None. */
  predicate Truthy(v: Value) {
    match v
    case VNull => false
    case VBool(b) => b
    case VInt(n) => n != 0
    case VFloat(f) => !(AllZeros(f.whole) && AllZeros(f.fraction))
    case VStr(s) => s != ""
    case VList(items) => items != []
    case VDict(fields) => fields != map[]
  }

  function Get(fields: map<string, Value>, key: string): Value {
    if key in fields then fields[key] else VNull
  }

  /** What `verify` decides from the fields of the file and the text it strips them to. */
  function VerdictOn(fields: map<string, Value>, text: string, check: Check): Verdict {
    var pubkey := Get(fields, SIGNING_PUBKEY);
    var signature := Get(fields, SIGNATURE);
    if !Truthy(pubkey) || !Truthy(signature) then NotSigned
    else if !pubkey.VStr? || !signature.VStr? then Raises
    else
      match check(pubkey.s, text, signature.s)
      case None => Raises
      case Some(ok) => if ok then Valid else Invalid
  }

  function Verify(file: string, check: Check): Verdict {
    match Loads(file)
    case Some(Obj(entries)) => VerdictOn(MeaningFields(entries), SignedText(entries), check)
    case _ => Raises
  }

  /* ---------- the verdict on any file ---------- */

  /** What Python takes for false: nothing, False, a zero of either kind, and everything empty. */
  predicate Falsy(v: Value) {
    || v == VNull || v == VBool(false) || v == VInt(0) || v == VStr("") || v == VList([]) || v == VDict(map[])
    || (v.VFloat? && (forall c | c in v.lexeme.whole :: c == '0') && forall c | c in v.lexeme.fraction :: c == '0')
  }

  /** The field is missing, null, false, zero or empty. */
  predicate Lacks(fields: map<string, Value>, key: string) {
    key !in fields || Falsy(fields[key])
  }

  predicate HoldsText(fields: map<string, Value>, key: string, text: string) {
    key in fields && fields[key] == VStr(text)
  }

  lemma ZerosIff(s: string)
    ensures AllZeros(s) <==> forall c | c in s :: c == '0'
  {
    forall i | 0 <= i < |s| ensures s[i] in s {}
  }

  lemma FalsyIff(v: Value)
    ensures Falsy(v) <==> !Truthy(v)
  {
    if v.VFloat? {
      ZerosIff(v.lexeme.whole);
      ZerosIff(v.lexeme.fraction);
    }
  }

  /** What `verify` says of every file that holds a dict. It accepts exactly the files that hold a non-empty
      key and signature which the check accepts for the signed text, rejects those it does not accept, and
      calls unsigned exactly those that lack either field. */
  lemma VerdictIs(file: string, check: Check, p: seq<Entry>)
    requires Loads(file) == Some(Obj(p))
    ensures
      var fields, text, verdict := MeaningFields(p), SignedText(p), Verify(file, check);
      && (verdict == NotSigned <==> Lacks(fields, "signing_pubkey") || Lacks(fields, "signature"))
      && (verdict == Valid <==> IsChecked(fields, text, check, true))
      && (verdict == Invalid <==> IsChecked(fields, text, check, false))
  {
    var fields := MeaningFields(p);
    var pubkey, signature := Get(fields, SIGNING_PUBKEY), Get(fields, SIGNATURE);
    FalsyIff(pubkey);
    FalsyIff(signature);
    hide Truthy;
    if pubkey.VStr? && pubkey.s != "" && signature.VStr? && signature.s != "" {
      assert Holds(fields, pubkey.s, signature.s);
    }
  }

  /** The file holds a non-empty key and signature, and the check of the signed text comes to this. */
  ghost predicate IsChecked(fields: map<string, Value>, text: string, check: Check, ok: bool) {
    exists pubkey, signature :: Holds(fields, pubkey, signature) && check(pubkey, text, signature) == Some(ok)
  }

  predicate Holds(fields: map<string, Value>, pubkey: string, signature: string) {
    && pubkey != "" && HoldsText(fields, "signing_pubkey", pubkey)
    && signature != "" && HoldsText(fields, "signature", signature)
  }

  /** A file that holds no dict is not verified at all. */
  lemma NoDictRaises(file: string, check: Check)
    ensures Loads(file).None? || !Loads(file).value.Obj? ==> Verify(file, check) == Raises
  {}

  /** A report that was not signed is called unsigned. */
  lemma UnsignedFileIsNotSigned(dump: seq<Entry>, style: Style, after: string, check: Check)
    requires WellFormed(Obj(dump)) && AllSpace(after)
    requires Lacks(MeaningFields(dump), "signing_pubkey") || Lacks(MeaningFields(dump), "signature")
    ensures Verify(Dumps(Obj(dump), style) + after, check) == NotSigned
  {
    DumpsRoundTrip(Obj(dump), style, after);
    VerdictIs(Dumps(Obj(dump), style) + after, check, Arranged(Obj(dump), style).entries);
  }

  /* ---------- what stripping and updating do to the meaning ---------- */

  lemma UpdateAndSubtract(m: map<string, Value>, key: string, value: Value, keys: set<string>)
    ensures m[key := value] - keys == if key in keys then m - keys else (m - keys)[key := value]
  {}

  lemma {:induction false} WithoutMeaning(entries: seq<Entry>, keys: set<string>)
    ensures MeaningFields(Without(entries, keys)) == MeaningFields(entries) - keys
  {
    if entries != [] {
      WithoutMeaning(entries[1..], keys);
      UpdateAndSubtract(MeaningFields(entries[1..]), entries[0].key, Meaning(entries[0].value), keys);
      if entries[0].key !in keys {
        assert Without(entries, keys)[1..] == Without(entries[1..], keys);
      }
    }
  }

  lemma StripIsWellFormed(entries: seq<Entry>)
    requires WellFormed(Obj(entries))
    ensures WellFormed(Obj(Strip(entries)))
  {
    WithoutIsUnique(entries, NOT_COVERED);
    forall i | 0 <= i < |Strip(entries)| ensures WellFormed(Strip(entries)[i].value) {
      assert Strip(entries)[i] in entries;
    }
  }

  lemma {:induction false} PutMeaning(entries: seq<Entry>, key: string, value: Json)
    requires UniqueKeys(entries)
    ensures MeaningFields(Put(entries, key, value)) == MeaningFields(entries)[key := Meaning(value)]
  {
    if entries != [] {
      var tail := entries[1..];
      if entries[0].key == key {
        assert ([Entry(key, value)] + tail)[1..] == tail;
      } else {
        PutMeaning(tail, key, value);
        assert Put(entries, key, value)[1..] == Put(tail, key, value);
      }
    }
  }

  lemma PutIsWellFormed(entries: seq<Entry>, key: string, value: Json)
    requires WellFormed(Obj(entries)) && WellFormed(value)
    ensures WellFormed(Obj(Put(entries, key, value)))
  {
    PutKeepsUnique(entries, key, value);
    var put := Put(entries, key, value);
    forall i | 0 <= i < |put| ensures WellFormed(put[i].value) {
      assert put[i] in put;
    }
  }

  /* ---------- main results ---------- */

  /** Two dumps have the same signed text exactly when they agree on every field the signature
      covers: a signature is bound to all of them and to nothing else. */
  lemma SignedTextIsCoveredFields(p: seq<Entry>, q: seq<Entry>)
    requires WellFormed(Obj(p)) && WellFormed(Obj(q))
    ensures
      var added := {"signature", "signing_pubkey", "ots_proof_path"};
      SignedText(p) == SignedText(q) <==> MeaningFields(p) - added == MeaningFields(q) - added
  {
    assert NOT_COVERED == {"signature", "signing_pubkey", "ots_proof_path"};
    WithoutMeaning(p, NOT_COVERED);
    WithoutMeaning(q, NOT_COVERED);
    StripIsWellFormed(p);
    StripIsWellFormed(q);
    CanonicalTextIsMeaning(Obj(Strip(p)), Obj(Strip(q)));
  }

  /** However a report is printed, `verify` decides on its fields: sorted or not, with escapes or
      raw, with or without the newline that `click.echo` adds. */
  lemma VerifyOfDump(entries: seq<Entry>, style: Style, after: string, check: Check)
    requires WellFormed(Obj(entries)) && AllSpace(after)
    ensures Verify(Dumps(Obj(entries), style) + after, check)
         == VerdictOn(MeaningFields(entries), SignedText(entries), check)
  {
    DumpsRoundTrip(Obj(entries), style, after);
    var read := Arranged(Obj(entries), style).entries;
    assert MeaningFields(read) == MeaningFields(entries);
    SignedTextIsCoveredFields(read, entries);
  }

  /** Signing adds its two fields and changes no covered one. */
  lemma SignedFields(dump: seq<Entry>, signature: string, pubkey: string)
    requires WellFormed(Obj(dump))
    ensures WellFormed(Obj(Signed(dump, signature, pubkey)))
    ensures
      var fields := MeaningFields(Signed(dump, signature, pubkey));
      && Get(fields, SIGNATURE) == VStr(signature)
      && Get(fields, SIGNING_PUBKEY) == VStr(pubkey)
      && fields - NOT_COVERED == MeaningFields(dump) - NOT_COVERED
  {
    var once := Put(dump, SIGNATURE, Str(signature));
    UpdateAndSubtract(MeaningFields(dump), SIGNATURE, VStr(signature), NOT_COVERED);
    UpdateAndSubtract(MeaningFields(once), SIGNING_PUBKEY, VStr(pubkey), NOT_COVERED);
    PutIsWellFormed(dump, SIGNATURE, Str(signature));
    PutMeaning(dump, SIGNATURE, Str(signature));
    PutIsWellFormed(once, SIGNING_PUBKEY, Str(pubkey));
    PutMeaning(once, SIGNING_PUBKEY, Str(pubkey));
  }

  function VerdictOfCheck(result: Option<bool>): Verdict {
    match result
    case None => Raises
    case Some(ok) => if ok then Valid else Invalid
  }

  lemma VerifyOfCovered(dump: seq<Entry>, final: seq<Entry>, signature: string, pubkey: string,
                        style: Style, after: string, check: Check)
    requires WellFormed(Obj(dump)) && WellFormed(Obj(final)) && AllSpace(after) && signature != "" && pubkey != ""
    requires MeaningFields(final) - NOT_COVERED == MeaningFields(dump) - NOT_COVERED
    requires Get(MeaningFields(final), SIGNATURE) == VStr(signature)
    requires Get(MeaningFields(final), SIGNING_PUBKEY) == VStr(pubkey)
    ensures Verify(Dumps(Obj(final), style) + after, check)
         == VerdictOfCheck(check(pubkey, SignedText(dump), signature))
  {
    VerifyOfDump(final, style, after, check);
    SignedTextIsCoveredFields(final, dump);
  }

  /** Signing survives the file: `verify` checks the signature against exactly the text that was
      signed, in every style `_render` writes. */
  lemma SignedFileVerifies(dump: seq<Entry>, signature: string, pubkey: string,
                           style: Style, after: string, check: Check)
    requires WellFormed(Obj(dump)) && AllSpace(after) && signature != "" && pubkey != ""
    ensures Verify(Dumps(Obj(Signed(dump, signature, pubkey)), style) + after, check)
         == VerdictOfCheck(check(pubkey, SignedText(dump), signature))
  {
    SignedFields(dump, signature, pubkey);
    VerifyOfCovered(dump, Signed(dump, signature, pubkey), signature, pubkey, style, after, check);
  }

  /** Anchoring a signed report afterwards keeps it valid. */
  lemma AnchoredFileVerifies(dump: seq<Entry>, signature: string, pubkey: string, proof: Json,
                             style: Style, after: string, check: Check)
    requires WellFormed(Obj(dump)) && WellFormed(proof) && AllSpace(after) && signature != "" && pubkey != ""
    ensures Verify(Dumps(Obj(Put(Signed(dump, signature, pubkey), OTS_PROOF_PATH, proof)), style) + after, check)
         == VerdictOfCheck(check(pubkey, SignedText(dump), signature))
  {
    var signed := Signed(dump, signature, pubkey);
    SignedFields(dump, signature, pubkey);
    PutIsWellFormed(signed, OTS_PROOF_PATH, proof);
    PutMeaning(signed, OTS_PROOF_PATH, proof);
    UpdateAndSubtract(MeaningFields(signed), OTS_PROOF_PATH, Meaning(proof), NOT_COVERED);
    VerifyOfCovered(dump, Put(signed, OTS_PROOF_PATH, proof), signature, pubkey, style, after, check);
  }

  /** Two files with the same key and signature get the same text checked exactly when they agree on
      every covered field; whatever text they were, and however they were laid out. */
  lemma AcceptedFilesAgree(a: string, b: string, p: seq<Entry>, q: seq<Entry>)
    requires Loads(a) == Some(Obj(p)) && Loads(b) == Some(Obj(q))
    ensures SignedText(p) == SignedText(q)
       <==> MeaningFields(p) - NOT_COVERED == MeaningFields(q) - NOT_COVERED
  {
    LoadsIsWellFormed(a);
    LoadsIsWellFormed(b);
    SignedTextIsCoveredFields(p, q);
  }
}
