/** scripts/translate.py: the English translations file, a JSON tree, is
    copied into each target language with every string leaf passed through
    a translation service.  The service is a parameter: for a text and a
    destination code it either answers with a translation or raises. */
module Translation {
  import opened Lexical

  /** JSON values as `json.load` returns them.  Numbers are kept as
      integers: they are copied, never inspected. */
  datatype Json =
    | JString(text: string)
    | JObject(members: seq<(string, Json)>)
    | JArray(items: seq<Json>)
    | JNumber(n: int)
    | JBool(b: bool)
    | JNull

  /** What one call of the translation service does. */
  datatype Reply = Translated(text: string) | Raised

  /** The translation service: `Translator.translate(text, src='en',
      dest=code)`. */
  type Service = (string, string) -> Reply

  /** `TARGET_LANGUAGES`, in its insertion order: code and display name. */
  const TargetLanguages: seq<(string, string)> := [
    ("vi", "Vietnamese"), ("de", "German"), ("es", "Spanish"), ("fr", "French"),
    ("ja", "Japanese"), ("ko", "Korean"),
    ("zh_CN", "Chinese (Simplified)"), ("zh_TW", "Chinese (Traditional)")
  ]

  predicate Supported(code: string) {
    exists i | 0 <= i < |TargetLanguages| :: TargetLanguages[i].0 == code
  }

  /** `not text or text.strip() == ""`: the text is empty or whitespace
      only. */
  predicate Blank(text: string) {
    AllSpace(text)
  }

  /** `translate_text`: a blank text is returned as it is; otherwise the
      service's answer, or the original text when the service raises. */
  function TranslateText(service: Service, text: string, dest: string): (r: string)
    ensures Blank(text) ==> r == text
    ensures !Blank(text) && service(text, dest).Translated? ==> r == service(text, dest).text
    ensures !Blank(text) && service(text, dest).Raised? ==> r == text
  {
    if Blank(text) then text
    else match service(text, dest)
      case Translated(t) => t
      case Raised => text
  }

  /** A blank text never reaches the service: the result is the same
      whatever the service would answer. */
  lemma BlankNotSent(s1: Service, s2: Service, text: string, dest: string)
    requires Blank(text)
    ensures TranslateText(s1, text, dest) == TranslateText(s2, text, dest) == text
  {
  }

  /** `translate_value`: strings are translated, objects and arrays are
      rebuilt member by member and item by item, other values are returned
      as they are. */
  function TranslateValue(service: Service, v: Json, dest: string): Json
    decreases v
  {
    match v
    case JString(t) => JString(TranslateText(service, t, dest))
    case JObject(ms) =>
      JObject(seq(|ms|, i requires 0 <= i < |ms| => (ms[i].0, TranslateValue(service, ms[i].1, dest))))
    case JArray(xs) => JArray(seq(|xs|, i requires 0 <= i < |xs| => TranslateValue(service, xs[i], dest)))
    case _ => v
  }

  /** An object's members after translation. */
  function TranslateMembers(service: Service, ms: seq<(string, Json)>, dest: string): seq<(string, Json)> {
    TranslateValue(service, JObject(ms), dest).members
  }

  /** Two trees of the same shape: the same kind of node everywhere, the same
      keys in the same order, arrays of the same length, and equal values at
      every leaf that is not a string. */
  predicate SameShape(a: Json, b: Json)
    decreases a
  {
    match a
    case JString(_) => b.JString?
    case JObject(ms) =>
      b.JObject? && |b.members| == |ms|
      && forall i | 0 <= i < |ms| :: b.members[i].0 == ms[i].0 && SameShape(ms[i].1, b.members[i].1)
    case JArray(xs) =>
      b.JArray? && |b.items| == |xs|
      && forall i | 0 <= i < |xs| :: SameShape(xs[i], b.items[i])
    case _ => b == a
  }

  /** Translation keeps the shape of the tree. */
  lemma {:induction false} TranslateKeepsShape(service: Service, v: Json, dest: string)
    ensures SameShape(v, TranslateValue(service, v, dest))
    decreases v
  {
    match v
    case JObject(ms) =>
      var r := TranslateMembers(service, ms, dest);
      forall i | 0 <= i < |ms| ensures r[i].0 == ms[i].0 && SameShape(ms[i].1, r[i].1) {
        TranslateKeepsShape(service, ms[i].1, dest);
      }
    case JArray(xs) =>
      var r := TranslateValue(service, v, dest).items;
      forall i | 0 <= i < |xs| ensures SameShape(xs[i], r[i]) {
        TranslateKeepsShape(service, xs[i], dest);
      }
    case _ =>
  }

  /** The string leaves of a tree, in document order. */
  function Strings(v: Json): seq<string>
    decreases v, 1
  {
    match v
    case JString(t) => [t]
    case JObject(ms) => MemberStrings(ms, |ms|)
    case JArray(xs) => ItemStrings(xs, |xs|)
    case _ => []
  }

  /** The string leaves of the first `n` members. */
  function MemberStrings(ms: seq<(string, Json)>, n: nat): seq<string>
    requires n <= |ms|
    decreases JObject(ms), 0, n
  {
    if n == 0 then [] else MemberStrings(ms, n - 1) + Strings(ms[n - 1].1)
  }

  /** The string leaves of the first `n` items. */
  function ItemStrings(xs: seq<Json>, n: nat): seq<string>
    requires n <= |xs|
    decreases JArray(xs), 0, n
  {
    if n == 0 then [] else ItemStrings(xs, n - 1) + Strings(xs[n - 1])
  }

  /** Every string of `ts` translated, in order. */
  function TranslateAllTexts(service: Service, ts: seq<string>, dest: string): (r: seq<string>)
    ensures |r| == |ts|
    ensures forall i | 0 <= i < |ts| :: r[i] == TranslateText(service, ts[i], dest)
  {
    seq(|ts|, i requires 0 <= i < |ts| => TranslateText(service, ts[i], dest))
  }

  /** The string leaves of the translation are the translations of the
      string leaves, in the same order: nothing else is translated and no
      leaf is moved. */
  lemma {:induction false} TranslateStrings(service: Service, v: Json, dest: string)
    ensures Strings(TranslateValue(service, v, dest)) == TranslateAllTexts(service, Strings(v), dest)
    decreases v, 1
  {
    match v
    case JObject(ms) =>
      TranslateMemberStrings(service, ms, |ms|, dest);
    case JArray(xs) =>
      TranslateItemStrings(service, xs, |xs|, dest);
    case _ =>
  }

  lemma {:induction false} TranslateMemberStrings(service: Service, ms: seq<(string, Json)>, n: nat, dest: string)
    requires n <= |ms|
    ensures MemberStrings(TranslateMembers(service, ms, dest), n) == TranslateAllTexts(service, MemberStrings(ms, n), dest)
    decreases JObject(ms), 0, n
  {
    if n > 0 {
      TranslateMemberStrings(service, ms, n - 1, dest);
      TranslateStrings(service, ms[n - 1].1, dest);
      TranslateAllTextsAppend(service, MemberStrings(ms, n - 1), Strings(ms[n - 1].1), dest);
    }
  }

  lemma {:induction false} TranslateItemStrings(service: Service, xs: seq<Json>, n: nat, dest: string)
    requires n <= |xs|
    ensures ItemStrings(TranslateValue(service, JArray(xs), dest).items, n) == TranslateAllTexts(service, ItemStrings(xs, n), dest)
    decreases JArray(xs), 0, n
  {
    if n > 0 {
      TranslateItemStrings(service, xs, n - 1, dest);
      TranslateStrings(service, xs[n - 1], dest);
      TranslateAllTextsAppend(service, ItemStrings(xs, n - 1), Strings(xs[n - 1]), dest);
    }
  }

  lemma TranslateAllTextsAppend(service: Service, a: seq<string>, b: seq<string>, dest: string)
    ensures TranslateAllTexts(service, a + b, dest) == TranslateAllTexts(service, a, dest) + TranslateAllTexts(service, b, dest)
  {
  }

  /** The service is asked only about the non-blank string leaves: two
      services that agree there give the same translation. */
  lemma {:induction false} OnlyLeavesSent(s1: Service, s2: Service, v: Json, dest: string)
    requires forall t | t in Strings(v) && !Blank(t) :: s1(t, dest) == s2(t, dest)
    ensures TranslateValue(s1, v, dest) == TranslateValue(s2, v, dest)
    decreases v
  {
    match v
    case JObject(ms) =>
      forall i | 0 <= i < |ms| ensures TranslateValue(s1, ms[i].1, dest) == TranslateValue(s2, ms[i].1, dest) {
        MemberStringsHas(ms, |ms|, i);
        OnlyLeavesSent(s1, s2, ms[i].1, dest);
      }
    case JArray(xs) =>
      forall i | 0 <= i < |xs| ensures TranslateValue(s1, xs[i], dest) == TranslateValue(s2, xs[i], dest) {
        ItemStringsHas(xs, |xs|, i);
        OnlyLeavesSent(s1, s2, xs[i], dest);
      }
    case _ =>
  }

  /** The strings of a member are among the strings of the object. */
  lemma {:induction false} MemberStringsHas(ms: seq<(string, Json)>, n: nat, i: nat)
    requires i < n <= |ms|
    ensures forall t | t in Strings(ms[i].1) :: t in MemberStrings(ms, n)
    decreases n
  {
    if i < n - 1 {
      MemberStringsHas(ms, n - 1, i);
    }
  }

  lemma {:induction false} ItemStringsHas(xs: seq<Json>, n: nat, i: nat)
    requires i < n <= |xs|
    ensures forall t | t in Strings(xs[i]) :: t in ItemStrings(xs, n)
    decreases n
  {
    if i < n - 1 {
      ItemStringsHas(xs, n - 1, i);
    }
  }

  /** `_count_keys` as a specification, over the first `n` values: a nested
      object counts its own keys this way, an array counts its length, any
      other value counts 1. */
  function KeyCountTo(ms: seq<(string, Json)>, n: nat): nat
    requires n <= |ms|
    decreases JObject(ms), 0, n
  {
    if n == 0 then 0 else KeyCountTo(ms, n - 1) + ValueCount(ms[n - 1].1)
  }

  function ValueCount(v: Json): nat
    decreases v, 1
  {
    match v
    case JObject(ns) => KeyCount(ns)
    case JArray(xs) => |xs|
    case _ => 1
  }

  function KeyCount(ms: seq<(string, Json)>): nat
    decreases JObject(ms), 0, |ms| + 1
  {
    KeyCountTo(ms, |ms|)
  }

  /** `_count_keys`, with its loop over the values and its recursive call
      on nested objects. */
  method CountKeys(ms: seq<(string, Json)>) returns (count: nat)
    ensures count == KeyCount(ms)
    decreases JObject(ms)
  {
    count := 0;
    for k := 0 to |ms|
      invariant count == KeyCountTo(ms, k)
    {
      match ms[k].1
      case JObject(ns) =>
        var inner := CountKeys(ns);
        count := count + inner;
      case JArray(xs) =>
        count := count + |xs|;
      case _ =>
        count := count + 1;
    }
  }

  /** No value is an object or an array. */
  predicate Flat(ms: seq<(string, Json)>) {
    forall i | 0 <= i < |ms| :: !ms[i].1.JObject? && !ms[i].1.JArray?
  }

  /** A flat object counts exactly its keys. */
  lemma {:induction false} FlatCount(ms: seq<(string, Json)>, n: nat)
    requires Flat(ms) && n <= |ms|
    ensures KeyCountTo(ms, n) == n
    decreases n
  {
    if n > 0 {
      FlatCount(ms, n - 1);
    }
  }

  /** Trees of the same shape have the same count, so translation keeps the
      count. */
  lemma {:induction false} SameShapeCount(ms: seq<(string, Json)>, ns: seq<(string, Json)>, n: nat)
    requires SameShape(JObject(ms), JObject(ns)) && n <= |ms|
    ensures KeyCountTo(ms, n) == KeyCountTo(ns, n)
    decreases JObject(ms), n
  {
    if n > 0 {
      SameShapeCount(ms, ns, n - 1);
      var v, w := ms[n - 1].1, ns[n - 1].1;
      assert SameShape(v, w);
      if v.JObject? {
        assert w == JObject(w.members);
        SameShapeCount(v.members, w.members, |v.members|);
        assert |w.members| == |v.members|;
        assert ValueCount(v) == KeyCount(v.members);
        assert ValueCount(w) == KeyCount(w.members);
      }
      assert ValueCount(v) == ValueCount(w);
    }
  }

  lemma TranslateKeepsCount(service: Service, ms: seq<(string, Json)>, dest: string)
    ensures KeyCount(TranslateMembers(service, ms, dest)) == KeyCount(ms)
  {
    TranslateKeepsShape(service, JObject(ms), dest);
    SameShapeCount(ms, TranslateMembers(service, ms, dest), |ms|);
  }

  /** A Python dict: no key twice. */
  predicate UniqueKeys(ms: seq<(string, Json)>) {
    forall i, j | 0 <= i < j < |ms| :: ms[i].0 != ms[j].0
  }

  /** `d[key] = value`: an existing key keeps its place and takes the new
      value, a new key goes at the end. */
  function Put(d: seq<(string, Json)>, key: string, value: Json): (r: seq<(string, Json)>)
    ensures (forall i | 0 <= i < |d| :: d[i].0 != key) ==> r == d + [(key, value)]
    decreases d
  {
    if d == [] then [(key, value)]
    else if d[0].0 == key then [(key, value)] + d[1..]
    else [d[0]] + Put(d[1..], key, value)
  }

  /** What `translate_file` produces and counts. */
  datatype FileTranslation = FileTranslation(data: seq<(string, Json)>, totalKeys: nat, processedKeys: nat)

  /** `translate_file`: the source's top-level keys are visited in order, the
      counter advanced for each, and the translated value stored under the
      key in the result dict. */
  method TranslateFile(service: Service, source: seq<(string, Json)>, dest: string)
    returns (out: FileTranslation)
    requires UniqueKeys(source)
    ensures out.data == TranslateMembers(service, source, dest)
    ensures out.totalKeys == KeyCount(source)
    ensures out.processedKeys == |source|
  {
    var total := CountKeys(source);
    var result: seq<(string, Json)> := [];
    var processed := 0;
    for k := 0 to |source|
      invariant processed == k
      invariant result == TranslateMembers(service, source[..k], dest)
    {
      var (key, value) := source[k];
      processed := processed + 1;
      forall i | 0 <= i < |result| ensures result[i].0 != key {
        assert result[i].0 == source[i].0;
      }
      result := Put(result, key, TranslateValue(service, value, dest));
    }
    assert source[..|source|] == source;
    out := FileTranslation(result, total, processed);
  }

  /** `translate_all`: one translation of the source per target language, in
      the order of TARGET_LANGUAGES; each would be saved as `<code>.json`. */
  method TranslateAll(service: Service, source: seq<(string, Json)>)
    returns (saved: seq<(string, seq<(string, Json)>)>)
    requires UniqueKeys(source)
    ensures |saved| == |TargetLanguages|
    ensures forall i | 0 <= i < |saved| ::
      saved[i] == (TargetLanguages[i].0, TranslateMembers(service, source, TargetLanguages[i].0))
  {
    saved := [];
    for k := 0 to |TargetLanguages|
      invariant |saved| == k
      invariant forall i | 0 <= i < k ::
        saved[i] == (TargetLanguages[i].0, TranslateMembers(service, source, TargetLanguages[i].0))
    {
      var code := TargetLanguages[k].0;
      var out := TranslateFile(service, source, code);
      saved := saved + [(code, out.data)];
    }
  }

  /** `translate_specific_language`: an unsupported code is refused, with
      nothing translated and nothing saved; a supported one is translated. */
  method TranslateSpecificLanguage(service: Service, source: seq<(string, Json)>, code: string)
    returns (saved: Option<seq<(string, Json)>>)
    requires UniqueKeys(source)
    ensures saved.None? <==> !Supported(code)
    ensures saved.Some? ==> saved.value == TranslateMembers(service, source, code)
  {
    if !Supported(code) {
      return None;
    }
    var out := TranslateFile(service, source, code);
    saved := Some(out.data);
  }
}
