/** Redaction of sensitive form fields, from internal/httpbody/httpbody.go. */
module Redact {

  predicate IsSeparator(c: char) {
    c == '&' || c == '\n' || c == '\r' || c == ' ' || c == '\t'
  }

  const SENSITIVE_KEYS: seq<string> :=
    ["Token=", "Auth=", "Email=", "SID=", "HSID=", "SSID=", "SAPISID=", "oauth_token=", "EncryptedPasswd="]

  const MASK := "***"

  /** Text as fields and the separators between them. */
  datatype Fields = Fields(fields: seq<string>, seps: string)

  ghost predicate Wellformed(f: Fields) {
    && |f.fields| == |f.seps| + 1
    && (forall i :: 0 <= i < |f.fields| ==> Plain(f.fields[i]))
    && (forall i :: 0 <= i < |f.seps| ==> IsSeparator(f.seps[i]))
  }

  /** Free of separators. */
  predicate Plain(s: string) {
    forall i :: 0 <= i < |s| ==> !IsSeparator(s[i])
  }

  /** Length of the leading field of s. */
  function FieldLength(s: string): (n: nat)
    ensures n <= |s|
  {
    if |s| == 0 || IsSeparator(s[0]) then 0 else 1 + FieldLength(s[1..])
  }

  lemma {:induction false} FieldLengthPlain(s: string)
    ensures var n := FieldLength(s);
      Plain(s[..n]) && (n < |s| ==> IsSeparator(s[n]))
  {
    if |s| > 0 && !IsSeparator(s[0]) {
      FieldLengthPlain(s[1..]);
      assert forall i :: 1 <= i < FieldLength(s) ==> s[i] == s[1..][i - 1];
    }
  }

  function Split(s: string): (f: Fields)
    ensures |f.fields| == |f.seps| + 1
    decreases |s|
  {
    var n := FieldLength(s);
    if n == |s| then Fields([s], "")
    else
      var rest := Split(s[n + 1..]);
      Fields([s[..n]] + rest.fields, [s[n]] + rest.seps)
  }

  lemma {:induction false} SplitWellformed(s: string)
    ensures Wellformed(Split(s))
    decreases |s|
  {
    var n := FieldLength(s);
    FieldLengthPlain(s);
    if n < |s| {
      SplitWellformed(s[n + 1..]);
    } else {
      assert s[..n] == s;
    }
  }

  function Join(f: Fields): string
    requires |f.fields| == |f.seps| + 1
    decreases |f.seps|
  {
    if |f.seps| == 0 then f.fields[0]
    else f.fields[0] + [f.seps[0]] + Join(Fields(f.fields[1..], f.seps[1..]))
  }

  /** The first sensitive key, from index k on, that starts the field; |SENSITIVE_KEYS| if none. */
  function KeyFrom(field: string, k: nat): (r: nat)
    requires k <= |SENSITIVE_KEYS|
    ensures k <= r <= |SENSITIVE_KEYS|
    ensures r < |SENSITIVE_KEYS| ==> SENSITIVE_KEYS[r] <= field
    ensures forall j :: k <= j < r ==> !(SENSITIVE_KEYS[j] <= field)
    decreases |SENSITIVE_KEYS| - k
  {
    if k == |SENSITIVE_KEYS| then k
    else if SENSITIVE_KEYS[k] <= field then k
    else KeyFrom(field, k + 1)
  }

  function KeyOf(field: string): (r: nat)
    ensures r <= |SENSITIVE_KEYS|
  {
    KeyFrom(field, 0)
  }

  predicate Sensitive(field: string) {
    KeyOf(field) < |SENSITIVE_KEYS|
  }

  function Masked(field: string): string {
    if Sensitive(field) then SENSITIVE_KEYS[KeyOf(field)] + MASK else field
  }

  function MapFields(mask: string -> string, fields: seq<string>): (r: seq<string>)
    ensures |r| == |fields| && forall i :: 0 <= i < |fields| ==> r[i] == mask(fields[i])
  {
    if |fields| == 0 then [] else [mask(fields[0])] + MapFields(mask, fields[1..])
  }

  /** The input with every field rewritten and the separators kept. */
  function Rewrite(mask: string -> string, s: string): string {
    Join(Fields(MapFields(mask, Split(s).fields), Split(s).seps))
  }

  /** The input with the value of every sensitive field masked. */
  function Redacted(s: string): string {
    Rewrite(Masked, s)
  }

  /** The loop over the sensitive keys: the first one that starts the field wins. */
  method MaskField(input: string) returns (field: string)
    ensures field == Masked(input)
  {
    field := input;
    var k := 0;
    while k < |SENSITIVE_KEYS|
      invariant 0 <= k <= |SENSITIVE_KEYS| && field == input && KeyFrom(input, 0) == KeyFrom(input, k)
    {
      if SENSITIVE_KEYS[k] <= field {
        field := SENSITIVE_KEYS[k] + MASK;
        break;
      }
      k := k + 1;
    }
  }

  /** Cut the leading field and its separator off s. */
  method TakeField(s: string) returns (field: string, sep: string, rest: string)
    requires |s| > 0
    ensures |rest| < |s| && Redacted(s) == Masked(field) + sep + Redacted(rest)
  {
    var idx := FieldLength(s);
    if idx == |s| {
      SplitLast(s);
      RewriteLast(Masked, s);
      field := s;
      sep := "";
      rest := "";
      RedactedEmpty();
      assert Masked(field) + "" + "" == Masked(field);
    } else {
      field := s[..idx];
      sep := s[idx..idx + 1];
      rest := s[idx + 1..];
      assert sep == [s[idx]];
      SplitFirst(s);
      RewriteFirst(Masked, s, field, s[idx], rest);
    }
  }

  method Redact(input: string) returns (out: string)
    ensures out == Redacted(input)
  {
    var s := input;
    out := "";
    assert out + Redacted(s) == Redacted(input);
    while |s| > 0
      invariant out + Redacted(s) == Redacted(input)
      decreases |s|
    {
      var field, sep, rest := TakeField(s);
      field := MaskField(field);
      Regroup(out, field, sep, Redacted(rest));
      out := out + field;
      out := out + sep;
      s := rest;
    }
    RedactedEmpty();
    assert s == "" && out + "" == out;
  }

  lemma Regroup(a: string, b: string, c: string, d: string)
    ensures ((a + b) + c) + d == a + (b + c + d)
  {
  }

  lemma RedactedEmpty()
    ensures Redacted("") == ""
  {
    assert FieldLength("") == 0;
    NoKeyPrefixes("");
  }

  lemma NoKeyPrefixes(field: string)
    requires |field| < 4
    ensures !Sensitive(field)
  {
  }

  lemma RewriteLast(mask: string -> string, s: string)
    requires Split(s) == Fields([s], "")
    ensures Rewrite(mask, s) == mask(s)
  {
    assert MapFields(mask, [s]) == [mask(s)];
  }

  /** One iteration: the leading field rewritten, its separator, and the rest rewritten. */
  lemma RewriteFirst(mask: string -> string, s: string, a: string, c: char, t: string)
    requires Split(s) == Fields([a] + Split(t).fields, [c] + Split(t).seps)
    ensures Rewrite(mask, s) == mask(a) + [c] + Rewrite(mask, t)
  {
    var rest := Split(t);
    assert MapFields(mask, [a] + rest.fields) == [mask(a)] + MapFields(mask, rest.fields);
    JoinCons(mask(a), c, Fields(MapFields(mask, rest.fields), rest.seps));
  }

  lemma {:induction false} SplitLast(s: string)
    requires FieldLength(s) == |s|
    ensures Split(s) == Fields([s], "")
  {
  }

  lemma {:induction false} SplitFirst(s: string)
    requires FieldLength(s) < |s|
    ensures var n := FieldLength(s);
      Split(s) == Fields([s[..n]] + Split(s[n + 1..]).fields, [s[n]] + Split(s[n + 1..]).seps)
  {
    var n := FieldLength(s);
    var rest := Split(s[n + 1..]);
    assert n < |s| && Split(s) == Fields([s[..n]] + rest.fields, [s[n]] + rest.seps);
  }

  lemma JoinCons(a: string, c: char, f: Fields)
    requires |f.fields| == |f.seps| + 1
    ensures Join(Fields([a] + f.fields, [c] + f.seps)) == a + [c] + Join(f)
  {
    var g := Fields([a] + f.fields, [c] + f.seps);
    assert g.fields[1..] == f.fields && g.seps[1..] == f.seps;
  }

  // ---------- splitting and joining ----------

  lemma {:induction false} FieldLengthOfField(field: string, tail: string)
    requires Plain(field) && (|tail| > 0 ==> IsSeparator(tail[0]))
    ensures FieldLength(field + tail) == |field|
  {
    if |field| == 0 {
      assert field + tail == tail;
    } else {
      assert !IsSeparator(field[0]);
      assert (field + tail)[1..] == field[1..] + tail;
      FieldLengthOfField(field[1..], tail);
    }
  }

  lemma SplitCons(a: string, c: char, t: string)
    requires Plain(a) && IsSeparator(c)
    ensures Split(a + [c] + t) == Fields([a] + Split(t).fields, [c] + Split(t).seps)
  {
    var s := a + [c] + t;
    assert s == a + ([c] + t);
    FieldLengthOfField(a, [c] + t);
    assert s[..|a|] == a && s[|a|] == c && s[|a| + 1..] == t;
  }

  lemma SplitPlain(s: string)
    requires Plain(s)
    ensures Split(s) == Fields([s], "")
  {
    FieldLengthOfField(s, "");
    assert s + "" == s;
  }

  lemma {:induction false} SplitJoin(f: Fields)
    requires Wellformed(f)
    ensures Split(Join(f)) == f
    decreases |f.seps|
  {
    if |f.seps| == 0 {
      SplitPlain(f.fields[0]);
      assert f.fields == [f.fields[0]] && f.seps == "";
    } else {
      var rest := Fields(f.fields[1..], f.seps[1..]);
      WellformedRest(f);
      SplitJoin(rest);
      SplitCons(f.fields[0], f.seps[0], Join(rest));
      FirstAndRest(f);
    }
  }

  lemma FirstAndRest(f: Fields)
    requires |f.fields| == |f.seps| + 1 && |f.seps| > 0
    ensures f == Fields([f.fields[0]] + f.fields[1..], [f.seps[0]] + f.seps[1..])
  {
  }

  lemma WellformedRest(f: Fields)
    requires Wellformed(f) && |f.seps| > 0
    ensures Wellformed(Fields(f.fields[1..], f.seps[1..])) && Plain(f.fields[0]) && IsSeparator(f.seps[0])
  {
  }

  /** What splitting a rewritten text finds. */
  lemma SplitRewrite(mask: string -> string, s: string)
    requires forall x :: Plain(x) ==> Plain(mask(x))
    ensures Split(Rewrite(mask, s)) == Fields(MapFields(mask, Split(s).fields), Split(s).seps)
  {
    SplitWellformed(s);
    SplitJoin(Fields(MapFields(mask, Split(s).fields), Split(s).seps));
  }

  lemma CutAt(s: string, n: nat)
    requires n < |s|
    ensures s == s[..n] + [s[n]] + s[n + 1..]
  {
  }

  lemma {:induction false} JoinSplit(s: string)
    ensures Join(Split(s)) == s
    decreases |s|
  {
    var n := FieldLength(s);
    if n < |s| {
      JoinSplit(s[n + 1..]);
      SplitFirst(s);
      JoinCons(s[..n], s[n], Split(s[n + 1..]));
      CutAt(s, n);
    } else {
      SplitLast(s);
    }
  }

  // ---------- what masking does to a field ----------

  /** A key is plain and ends in its only '='. */
  predicate KeyShape(key: string) {
    && Plain(key)
    && |key| > 0 && key[|key| - 1] == '='
    && forall i :: 0 <= i < |key| - 1 ==> key[i] != '='
  }

  lemma KeysShaped(k: nat)
    requires k < |SENSITIVE_KEYS|
    ensures KeyShape(SENSITIVE_KEYS[k])
  {
    assert KeyShape("Token=") && KeyShape("Auth=") && KeyShape("Email=") && KeyShape("SID=") && KeyShape("HSID=");
    assert KeyShape("SSID=") && KeyShape("SAPISID=") && KeyShape("oauth_token=") && KeyShape("EncryptedPasswd=");
  }

  /** Length and first letter tell the keys apart. */
  lemma KeysDiffer(j: nat, k: nat)
    requires j < |SENSITIVE_KEYS| && k < |SENSITIVE_KEYS|
    requires |SENSITIVE_KEYS[j]| == |SENSITIVE_KEYS[k]| && SENSITIVE_KEYS[j][0] == SENSITIVE_KEYS[k][0]
    ensures j == k
  {
  }

  /** No sensitive key starts another one, whatever follows that. */
  lemma KeysPrefixFree(j: nat, k: nat, tail: string)
    requires j < |SENSITIVE_KEYS| && k < |SENSITIVE_KEYS| && SENSITIVE_KEYS[j] <= SENSITIVE_KEYS[k] + tail
    ensures j == k
  {
    var a, b := SENSITIVE_KEYS[j], SENSITIVE_KEYS[k];
    KeysShaped(j);
    KeysShaped(k);
    assert a[|a| - 1] == (b + tail)[|a| - 1] && a[0] == (b + tail)[0];
    assert b[|b| - 1] == '=';
    assert |a| >= |b| ==> a[|b| - 1] == (b + tail)[|b| - 1];
    KeysDiffer(j, k);
  }

  lemma KeysArePlain(k: nat)
    requires k < |SENSITIVE_KEYS|
    ensures Plain(SENSITIVE_KEYS[k] + MASK)
  {
    KeysShaped(k);
  }

  lemma MaskedField(field: string)
    requires Plain(field)
    ensures Plain(Masked(field)) && KeyOf(Masked(field)) == KeyOf(field) && Masked(Masked(field)) == Masked(field)
  {
    if Sensitive(field) {
      var k := KeyOf(field);
      KeysArePlain(k);
      KeysPrefixFree(KeyOf(Masked(field)), k, MASK);
    }
  }

  // ---------- the redaction, spelled out ----------

  const SECRETS: set<string> :=
    {"Token=", "Auth=", "Email=", "SID=", "HSID=", "SSID=", "SAPISID=", "oauth_token=", "EncryptedPasswd="}

  /** Free of the five characters that end a field. */
  predicate OneField(s: string) {
    forall i :: 0 <= i < |s| ==> s[i] !in {'&', '\n', '\r', ' ', '\t'}
  }

  /** A field that starts with one of these keys keeps the key, and three stars. */
  lemma SecretHidden(key: string, value: string)
    requires key in SECRETS && OneField(value)
    ensures Redacted(key + value) == key + "***"
  {
    var k := KeyNumber(key);
    var field := key + value;
    KeysShaped(k);
    assert Plain(field) && SENSITIVE_KEYS[k] <= field;
    KeysPrefixFree(KeyOf(field), k, value);
    SplitPlain(field);
    RewriteLast(Masked, field);
  }

  lemma KeyNumber(key: string) returns (k: nat)
    requires key in SECRETS
    ensures k < |SENSITIVE_KEYS| && SENSITIVE_KEYS[k] == key
  {
    k := if key == "Token=" then 0 else if key == "Auth=" then 1 else if key == "Email=" then 2
         else if key == "SID=" then 3 else if key == "HSID=" then 4 else if key == "SSID=" then 5
         else if key == "SAPISID=" then 6 else if key == "oauth_token=" then 7 else 8;
  }

  /** Any other field stays as it is. */
  lemma OthersKept(field: string)
    requires OneField(field) && forall key :: key in SECRETS ==> !(key <= field)
    ensures Redacted(field) == field
  {
    forall k | 0 <= k < |SENSITIVE_KEYS| ensures SENSITIVE_KEYS[k] in SECRETS {
      KeyListed(k);
    }
    assert Plain(field);
    SplitPlain(field);
    RewriteLast(Masked, field);
  }

  lemma KeyListed(k: nat)
    requires k < |SENSITIVE_KEYS|
    ensures SENSITIVE_KEYS[k] in SECRETS
  {
  }

  /** Fields are redacted one by one, and what ends each of them stays. */
  lemma FieldByField(a: string, c: char, t: string)
    requires OneField(a) && c in {'&', '\n', '\r', ' ', '\t'}
    ensures Redacted(a + [c] + t) == Redacted(a) + [c] + Redacted(t)
  {
    assert Plain(a);
    SplitPlain(a);
    RewriteLast(Masked, a);
    SplitCons(a, c, t);
    RewriteFirst(Masked, a + [c] + t, a, c, t);
  }

  /** Redaction keeps the separator sequence and the number of fields, every non-sensitive
      field as it is, and of each sensitive field only its key. */
  lemma RedactedFields(s: string)
    ensures Split(Redacted(s)).seps == Split(s).seps
    ensures |Split(Redacted(s)).fields| == |Split(s).fields|
    ensures forall i :: 0 <= i < |Split(s).fields| ==>
      Split(Redacted(s)).fields[i] ==
        if Sensitive(Split(s).fields[i]) then SENSITIVE_KEYS[KeyOf(Split(s).fields[i])] + MASK else Split(s).fields[i]
  {
    MaskedPlain();
    SplitRewrite(Masked, s);
  }

  lemma MaskedPlain()
    ensures forall x :: Plain(x) ==> Plain(Masked(x))
  {
    forall x | Plain(x) ensures Plain(Masked(x)) { MaskedField(x); }
  }

  /** What an observer of the output cannot tell apart: equal fields, and fields sensitive
      under the same key. */
  predicate Alike(a: string, b: string) {
    a == b || (Sensitive(a) && KeyOf(a) == KeyOf(b))
  }

  lemma MaskedAlike(a: string, b: string)
    requires Plain(a) && Plain(b)
    ensures Masked(a) == Masked(b) <==> Alike(a, b)
  {
    MaskedField(a);
    MaskedField(b);
  }

  /** Noninterference, both ways: two inputs have the same output exactly when they have the
      same separators and pairwise alike fields. */
  lemma Noninterference(s: string, t: string)
    ensures Redacted(s) == Redacted(t) <==>
      && Split(s).seps == Split(t).seps
      && forall i :: 0 <= i < |Split(s).fields| && i < |Split(t).fields| ==> Alike(Split(s).fields[i], Split(t).fields[i])
  {
    SplitWellformed(s);
    SplitWellformed(t);
    MaskedPlain();
    RewriteEqual(Masked, s, t);
    var f, g := Split(s).fields, Split(t).fields;
    forall i | 0 <= i < |f| && i < |g|
      ensures Masked(f[i]) == Masked(g[i]) <==> Alike(f[i], g[i])
    {
      MaskedAlike(f[i], g[i]);
    }
  }

  /** Mapping two field lists gives equal lists exactly when it does so pairwise. */
  lemma MapEqual(mask: string -> string, f: seq<string>, g: seq<string>)
    requires |f| == |g|
    ensures MapFields(mask, f) == MapFields(mask, g) <==> forall i :: 0 <= i < |f| ==> mask(f[i]) == mask(g[i])
  {
    if MapFields(mask, f) == MapFields(mask, g) {
      assert forall i :: 0 <= i < |f| ==> mask(f[i]) == MapFields(mask, f)[i] && MapFields(mask, g)[i] == mask(g[i]);
    }
  }

  /** Rewriting fields into separator-free text can be undone up to the rewriting itself. */
  lemma RewriteEqual(mask: string -> string, s: string, t: string)
    requires forall x :: Plain(x) ==> Plain(mask(x))
    ensures Rewrite(mask, s) == Rewrite(mask, t) <==>
      && Split(s).seps == Split(t).seps
      && forall i :: 0 <= i < |Split(s).fields| && i < |Split(t).fields| ==> mask(Split(s).fields[i]) == mask(Split(t).fields[i])
  {
    SplitRewrite(mask, s);
    SplitRewrite(mask, t);
    if Split(s).seps == Split(t).seps {
      MapEqual(mask, Split(s).fields, Split(t).fields);
    }
  }

  /** Redacting twice is redacting once. */
  lemma Idempotent(s: string)
    ensures Redacted(Redacted(s)) == Redacted(s)
  {
    var f := Split(s);
    SplitWellformed(s);
    MaskedPlain();
    SplitRewrite(Masked, s);
    forall i | 0 <= i < |f.fields|
      ensures Masked(MapFields(Masked, f.fields)[i]) == MapFields(Masked, f.fields)[i]
    {
      MaskedField(f.fields[i]);
    }
    assert MapFields(Masked, MapFields(Masked, f.fields)) == MapFields(Masked, f.fields);
  }
}
