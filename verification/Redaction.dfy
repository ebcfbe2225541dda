/**
 Redaction of audit payloads: values under sensitive keys and texts that mention a credential are
 replaced before an event is stored.
 Source: backend/internal/api/audit.go, redactAuditMap to redactSensitiveText.
 */
module Redaction {
  import opened Sets
  import opened Text

  const REDACTED: string := "[REDACTED]"

  const MARKERS: seq<string> := ["password", "token", "secret", "private_key", "private-key", "authorization", "bearer ", "api_key", "api-key"]

  /**
   A payload value: `map[string]any`, `[]any`, `string`, a number, a boolean or null, and for every other
   Go type (a typed map or slice, a struct) the JSON content it stands for. The code looks into the first
   three only.
   */
  datatype Json =
    | Obj(fields: map<string, Json>)
    | Arr(items: seq<Json>)
    | Str(text: string)
    | Scalar(raw: string)
    | Opaque(content: Json)

  predicate SensitiveKey(key: string) {
    var lower := ToLower(key);
    || (Contains(lower, "password") && lower != "passwordloginenabled")
    || Contains(lower, "secret")
    || Contains(lower, "token")
  }

  /** The text mentions one of the markers, in any letter case. */
  ghost predicate Marked(text: string) {
    exists i :: 0 <= i < |MARKERS| && Contains(ToLower(text), MARKERS[i])
  }

  ghost function RedactText(text: string): string {
    if Marked(text) then REDACTED else text
  }

  ghost function Redact(value: Json): Json {
    match value
    case Obj(fields) => Obj(map key | key in fields :: if SensitiveKey(key) then Str(REDACTED) else Redact(fields[key]))
    case Arr(items) => Arr(seq(|items|, i requires 0 <= i < |items| => Redact(items[i])))
    case Str(text) => Str(RedactText(text))
    case _ => value
  }

  // ---- The code ----

  /** `redactSensitiveText` */
  method RedactSensitiveText(value: string) returns (r: string)
    ensures r == RedactText(value)
  {
    var lower := ToLower(value);
    for i := 0 to |MARKERS|
      invariant forall k :: 0 <= k < i ==> !Contains(lower, MARKERS[k])
    {
      if Contains(lower, MARKERS[i]) {
        return REDACTED;
      }
    }
    r := value;
  }

  /** `redactAuditMap` */
  method RedactAuditMap(values: map<string, Json>) returns (result: map<string, Json>)
    ensures Obj(result) == Redact(Obj(values))
    decreases Obj(values), 0
  {
    result := map[];
    var unvisited := values.Keys;
    while unvisited != {}
      invariant unvisited <= values.Keys
      invariant result.Keys == values.Keys - unvisited
      invariant forall key :: key in result ==> result[key] == if SensitiveKey(key) then Str(REDACTED) else Redact(values[key])
      decreases |unvisited|
    {
      var key := Pick(unvisited);
      if SensitiveKey(key) {
        result := result[key := Str(REDACTED)];
      } else {
        var redacted := RedactAuditValue(values[key]);
        result := result[key := redacted];
      }
      unvisited := unvisited - {key};
    }
  }

  /** `redactAuditValue` */
  method RedactAuditValue(value: Json) returns (r: Json)
    ensures r == Redact(value)
    decreases value, 1
  {
    match value
    case Obj(fields) =>
      var result := RedactAuditMap(fields);
      r := Obj(result);
    case Arr(items) =>
      var out: seq<Json> := [];
      for i := 0 to |items|
        invariant |out| == i && forall k :: 0 <= k < i ==> out[k] == Redact(items[k])
      {
        var item := RedactAuditValue(items[i]);
        out := out + [item];
      }
      r := Arr(out);
    case Str(text) =>
      var redacted := RedactSensitiveText(text);
      r := Str(redacted);
    case _ =>
      r := value;
  }

  // ---- The replacement text is harmless ----

  lemma NotContained(s: string, part: string, c: char)
    requires c in part && c !in s
    ensures !Contains(s, part)
  {
    forall i: nat | i <= |s|
      ensures !OccursAt(s, part, i)
    {
      if i + |part| <= |s| {
        var k :| 0 <= k < |part| && part[k] == c;
        assert s[i..i + |part|][k] == s[i + k];
      }
    }
  }

  lemma LowerRedacted()
    ensures forall c :: c in ToLower(REDACTED) ==> c in "[redacted]"
  {
    var lower := ToLower(REDACTED);
    forall k | 0 <= k < |lower|
      ensures lower[k] == "[redacted]"[k]
    {
    }
  }

  /** No marker occurs in the replacement, so a redacted text is left alone the next time. */
  lemma RedactedIsUnmarked()
    ensures !Marked(REDACTED)
  {
    LowerRedacted();
    var lower := ToLower(REDACTED);
    assert 'p' !in lower && 'o' !in lower && 's' !in lower && 'u' !in lower && 'b' !in lower;
    assert "password"[0] == 'p' && "private_key"[0] == 'p' && "private-key"[0] == 'p' && "api_key"[1] == 'p' && "api-key"[1] == 'p';
    assert "token"[1] == 'o' && "secret"[0] == 's' && "authorization"[1] == 'u' && "bearer "[0] == 'b';
    NotContained(lower, "password", 'p');
    NotContained(lower, "token", 'o');
    NotContained(lower, "secret", 's');
    NotContained(lower, "private_key", 'p');
    NotContained(lower, "private-key", 'p');
    NotContained(lower, "authorization", 'u');
    NotContained(lower, "bearer ", 'b');
    NotContained(lower, "api_key", 'p');
    NotContained(lower, "api-key", 'p');
  }

  lemma ToLowerSlice(text: string, i: nat, n: nat)
    requires i + n <= |text|
    ensures ToLower(text)[i..i + n] == ToLower(text[i..i + n])
  {
  }

  lemma MarkersAreLower(k: nat)
    requires k < |MARKERS|
    ensures IsLower(MARKERS[k])
  {
  }

  /** A marker written with any letters in upper case, anywhere in the text, marks it. */
  lemma MarkedInAnyCase(text: string, i: nat, k: nat)
    requires k < |MARKERS| && i + |MARKERS[k]| <= |text| && SameButForCase(text[i..i + |MARKERS[k]|], MARKERS[k])
    ensures Marked(text) && RedactText(text) == "[REDACTED]"
  {
    MarkersAreLower(k);
    ToLowerUndoesCase(text[i..i + |MARKERS[k]|], MARKERS[k]);
    ToLowerSlice(text, i, |MARKERS[k]|);
    assert OccursAt(ToLower(text), MARKERS[k], i);
  }

  // ---- Redacted values ----

  /** Nothing sensitive is left: sensitive keys hold the replacement and no text is marked. */
  ghost predicate Clean(value: Json) {
    match value
    case Obj(fields) => forall key :: key in fields ==> if SensitiveKey(key) then fields[key] == Str(REDACTED) else Clean(fields[key])
    case Arr(items) => forall i :: 0 <= i < |items| ==> Clean(items[i])
    case Str(text) => !Marked(text)
    case Scalar(_) => true
    case Opaque(content) => Clean(content)
  }

  /** Nothing sensitive inside a value of another Go type, except below a sensitive key. */
  ghost predicate OpaqueClean(value: Json) {
    match value
    case Obj(fields) => forall key :: key in fields && !SensitiveKey(key) ==> OpaqueClean(fields[key])
    case Arr(items) => forall i :: 0 <= i < |items| ==> OpaqueClean(items[i])
    case Opaque(content) => Clean(content)
    case _ => true
  }

  /** Redaction cleans a value exactly when no value of another Go type outside a sensitive key holds something sensitive. */
  lemma {:induction false} RedactCleans(value: Json)
    ensures Clean(Redact(value)) <==> OpaqueClean(value)
    decreases value
  {
    match value
    case Obj(fields) =>
      var redacted := Redact(value);
      forall key | key in fields && !SensitiveKey(key)
        ensures Clean(redacted.fields[key]) <==> OpaqueClean(fields[key])
      {
        RedactCleans(fields[key]);
      }
      assert forall key :: key in fields && SensitiveKey(key) ==> redacted.fields[key] == Str(REDACTED);
    case Arr(items) =>
      var redacted := Redact(value);
      forall i | 0 <= i < |items|
        ensures Clean(redacted.items[i]) <==> OpaqueClean(items[i])
      {
        RedactCleans(items[i]);
      }
    case Str(text) => RedactedIsUnmarked();
    case _ =>
  }

  /** What `json.Unmarshal` makes of a document: no other Go type anywhere. */
  ghost predicate Decoded(value: Json) {
    match value
    case Obj(fields) => forall key :: key in fields ==> Decoded(fields[key])
    case Arr(items) => forall i :: 0 <= i < |items| ==> Decoded(items[i])
    case Opaque(_) => false
    case _ => true
  }

  lemma {:induction false} DecodedIsOpaqueClean(value: Json)
    requires Decoded(value)
    ensures OpaqueClean(value)
    decreases value
  {
    match value
    case Obj(fields) =>
      forall key | key in fields && !SensitiveKey(key)
        ensures OpaqueClean(fields[key])
      {
        DecodedIsOpaqueClean(fields[key]);
      }
    case Arr(items) =>
      forall i | 0 <= i < |items|
        ensures OpaqueClean(items[i])
      {
        DecodedIsOpaqueClean(items[i]);
      }
    case _ =>
  }

  /** Redaction always cleans a decoded JSON document, which is what the callers pass. */
  lemma DecodedIsCleaned(value: Json)
    requires Decoded(value)
    ensures Clean(Redact(value))
  {
    DecodedIsOpaqueClean(value);
    RedactCleans(value);
  }

  /** What redaction leaves alone: other Go types whatever they hold, and everything clean. */
  ghost predicate Settled(value: Json) {
    match value
    case Obj(fields) => forall key :: key in fields ==> if SensitiveKey(key) then fields[key] == Str(REDACTED) else Settled(fields[key])
    case Arr(items) => forall i :: 0 <= i < |items| ==> Settled(items[i])
    case Str(text) => !Marked(text)
    case _ => true
  }

  lemma {:induction false} RedactSettles(value: Json)
    ensures Settled(Redact(value))
    decreases value
  {
    match value
    case Obj(fields) =>
      forall key | key in fields && !SensitiveKey(key)
        ensures Settled(Redact(fields[key]))
      {
        RedactSettles(fields[key]);
      }
    case Arr(items) =>
      forall i | 0 <= i < |items|
        ensures Settled(Redact(items[i]))
      {
        RedactSettles(items[i]);
      }
    case Str(text) => RedactedIsUnmarked();
    case _ =>
  }

  lemma {:induction false} RedactKeepsSettled(value: Json)
    requires Settled(value)
    ensures Redact(value) == value
    decreases value
  {
    match value
    case Obj(fields) =>
      forall key | key in fields
        ensures Redact(value).fields[key] == fields[key]
      {
        if !SensitiveKey(key) {
          RedactKeepsSettled(fields[key]);
        }
      }
    case Arr(items) =>
      forall i | 0 <= i < |items|
        ensures Redact(items[i]) == items[i]
      {
        RedactKeepsSettled(items[i]);
      }
    case _ =>
  }

  /** Redacting twice is redacting once, and changes a value exactly when it is not settled. */
  lemma RedactIsIdempotent(value: Json)
    ensures Redact(Redact(value)) == Redact(value)
    ensures Redact(value) == value <==> Settled(value)
  {
    RedactSettles(value);
    RedactKeepsSettled(Redact(value));
    if Settled(value) {
      RedactKeepsSettled(value);
    }
  }

  // ---- Keys that name a credential ----

  /** The value under a key stays exactly when the key is not sensitive and nothing in the value is, or it is the replacement. */
  lemma FieldSurvivesExactly(fields: map<string, Json>, key: string)
    requires key in fields
    ensures Redact(Obj(fields)).fields[key] == fields[key] <==>
            if SensitiveKey(key) then fields[key] == Str(REDACTED) else Settled(fields[key])
  {
    RedactIsIdempotent(fields[key]);
  }

  /** The markers that count as credentials inside a text and not as a key. */
  const TEXT_ONLY: seq<string> := ["private_key", "private-key", "authorization", "bearer ", "api_key", "api-key"]

  ghost predicate NamesTextOnly(lower: string) {
    exists i :: 0 <= i < |TEXT_ONLY| && Contains(lower, TEXT_ONLY[i])
  }

  /** A key that names a credential and is not treated as sensitive: one of six markers, or the one exempted key. */
  lemma UnprotectedKeys(key: string)
    ensures Marked(key) && !SensitiveKey(key) <==>
            var lower := ToLower(key);
            && !Contains(lower, "secret") && !Contains(lower, "token")
            && (lower == "passwordloginenabled" || (!Contains(lower, "password") && NamesTextOnly(lower)))
  {
    var lower := ToLower(key);
    assert MARKERS == ["password", "token", "secret"] + TEXT_ONLY;
    assert forall i :: 0 <= i < |TEXT_ONLY| ==> MARKERS[i + 3] == TEXT_ONLY[i];
    assert MARKERS[0] == "password" && MARKERS[1] == "token" && MARKERS[2] == "secret";
    if lower == "passwordloginenabled" {
      PasswordPrefix(lower);
    }
    if i :| 0 <= i < |TEXT_ONLY| && Contains(lower, TEXT_ONLY[i]) {
      assert Contains(lower, MARKERS[i + 3]);
    }
    if i :| 0 <= i < |MARKERS| && Contains(lower, MARKERS[i]) {
      assert i >= 3 ==> TEXT_ONLY[i - 3] == MARKERS[i];
    }
  }

  lemma PasswordPrefix(lower: string)
    requires lower == "passwordloginenabled"
    ensures Contains(lower, "password")
  {
    assert OccursAt(lower, "password", 0);
  }

  /** An API key under its own name is stored in the audit log. */
  lemma ApiKeySurvives(text: string)
    requires !Marked(text)
    ensures Marked("api_key") && Redact(Obj(map["api_key" := Str(text)])) == Obj(map["api_key" := Str(text)])
  {
    var fields := map["api_key" := Str(text)];
    LowerApiKey();
    assert OccursAt(ToLower("api_key"), MARKERS[7], 0);
    FieldSurvivesExactly(fields, "api_key");
    assert Redact(Obj(fields)).fields == fields;
  }

  lemma LowerApiKey()
    ensures ToLower("api_key") == "api_key" && !SensitiveKey("api_key")
  {
    var lower := ToLower("api_key");
    forall k | 0 <= k < |lower|
      ensures lower[k] == "api_key"[k]
    {
    }
    assert "password"[2] == 's' && "secret"[0] == 's' && "token"[0] == 't';
    NotContained(lower, "password", 's');
    NotContained(lower, "secret", 's');
    NotContained(lower, "token", 't');
  }

  // ---- What redaction hides, and what it does not ----

  ghost predicate Hidden(text: string) {
    Marked(text) || text == REDACTED
  }

  /** The values differ at most under sensitive keys and inside hidden texts. */
  ghost predicate Alike(a: Json, b: Json)
    decreases a
  {
    match a
    case Obj(fields) =>
      b.Obj? && b.fields.Keys == fields.Keys && forall key :: key in fields && !SensitiveKey(key) ==> Alike(fields[key], b.fields[key])
    case Arr(items) =>
      b.Arr? && |b.items| == |items| && forall i :: 0 <= i < |items| ==> Alike(items[i], b.items[i])
    case Str(text) => b.Str? && (b.text == text || (Hidden(text) && Hidden(b.text)))
    case _ => b == a
  }

  /** Non-interference: what differs only where redaction hides gives the same output. */
  lemma {:induction false} AlikeRedactSame(a: Json, b: Json)
    requires Alike(a, b)
    ensures Redact(a) == Redact(b)
    decreases a
  {
    match a
    case Obj(fields) =>
      forall key | key in fields && !SensitiveKey(key)
        ensures Redact(fields[key]) == Redact(b.fields[key])
      {
        AlikeRedactSame(fields[key], b.fields[key]);
      }
      assert Redact(a).fields == Redact(b).fields;
    case Arr(items) =>
      forall i | 0 <= i < |items|
        ensures Redact(items[i]) == Redact(b.items[i])
      {
        AlikeRedactSame(items[i], b.items[i]);
      }
      assert Redact(a).items == Redact(b).items;
    case Str(text) => RedactedIsUnmarked();
    case _ =>
  }

  /** And nothing more is lost: equal outputs come only from values alike. */
  lemma {:induction false} SameRedactionAlike(a: Json, b: Json)
    requires Redact(a) == Redact(b)
    ensures Alike(a, b)
    decreases a
  {
    match a
    case Obj(fields) =>
      assert Redact(a).fields.Keys == fields.Keys && Redact(b).fields.Keys == b.fields.Keys;
      forall key | key in fields && !SensitiveKey(key)
        ensures Alike(fields[key], b.fields[key])
      {
        assert Redact(a).fields[key] == Redact(fields[key]) && Redact(b).fields[key] == Redact(b.fields[key]);
        SameRedactionAlike(fields[key], b.fields[key]);
      }
    case Arr(items) =>
      assert |Redact(a).items| == |items| && |Redact(b).items| == |b.items|;
      forall i | 0 <= i < |items|
        ensures Alike(items[i], b.items[i])
      {
        assert Redact(a).items[i] == Redact(items[i]) && Redact(b).items[i] == Redact(b.items[i]);
        SameRedactionAlike(items[i], b.items[i]);
      }
    case Str(text) => RedactedIsUnmarked();
    case _ =>
  }

  lemma RedactionHidesExactly(a: Json, b: Json)
    ensures Redact(a) == Redact(b) <==> Alike(a, b)
  {
    if Alike(a, b) {
      AlikeRedactSame(a, b);
    }
    if Redact(a) == Redact(b) {
      SameRedactionAlike(a, b);
    }
  }
}
