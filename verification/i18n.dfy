/**
 * contexts/I18nContext.tsx: the translation lookup behind `t(key, params)`.
 * A dotted key walks a tree of dictionaries (`getNestedValue`), the current
 * locale falls back to Chinese and then to the key itself, and `{name}`
 * placeholders are filled from the parameters (`interpolate`). The locale is
 * chosen from storage or the browser language and toggled between the two.
 * The dictionaries themselves (i18n/translations.ts) are not part of this
 * model: they are parameters.
 */
module I18n {
  import opened Wrappers
  import opened Text
  import opened JsValues

  const Dot: CodeUnit := 46
  const OpenBrace: CodeUnit := 123
  const CloseBrace: CodeUnit := 125

  // ---------------------------------------------------------------------------
  // getNestedValue
  // ---------------------------------------------------------------------------

  /**
   * The value reached by reading the segments one after the other; `None`
   * as soon as the value to read from is not an object or an array.
   */
  function Descend(v: JsValue, segments: seq<String>): (r: Option<JsValue>)
    ensures |segments| > 0 && !IsObjectLike(v) ==> r == None
    ensures |segments| == 0 ==> r == Some(v)
    decreases |segments|
  {
    if |segments| == 0 then Some(v)
    else if !IsObjectLike(v) then None
    else Descend(GetProp(v, segments[0]), segments[1..])
  }

  /** `getNestedValue(dict, key)`: the string at the dotted path, if the path leads to one. */
  function GetNestedValue(dict: JsValue, key: String): (r: Option<String>)
    ensures r.Some? <==> Descend(dict, Split(key, Dot)).Some? && Descend(dict, Split(key, Dot)).value.Str?
    ensures r.Some? ==> Descend(dict, Split(key, Dot)) == Some(Str(r.value))
    ensures !IsObjectLike(dict) ==> r == None
  {
    match Descend(dict, Split(key, Dot))
    case Some(Str(s)) => Some(s)
    case _ => None
  }

  /** Walking two paths one after the other is walking their concatenation. */
  lemma {:induction false} DescendAppend(v: JsValue, a: seq<String>, b: seq<String>)
    ensures Descend(v, a + b) == match Descend(v, a) case None => None case Some(w) => Descend(w, b)
    decreases |a|
  {
    if |a| > 0 {
      assert (a + b)[0] == a[0];
      assert (a + b)[1..] == a[1..] + b;
      if IsObjectLike(v) {
        DescendAppend(GetProp(v, a[0]), a[1..], b);
      }
    } else {
      assert a + b == b;
    }
  }

  /** Splitting at a separator placed between two texts splits each of them. */
  lemma {:induction false} SplitAppend(a: String, b: String, sep: CodeUnit)
    requires sep !in a
    ensures Split(a + [sep] + b, sep) == [a] + Split(b, sep)
  {
    var s := a + [sep] + b;
    IndexOfFirst(s, sep, |a|);
    assert s[..|a|] == a;
    assert s[|a| + 1..] == b;
  }

  /** Splitting a multi-segment key: the first segment, then the split of the rest. */
  lemma SplitAppendSegments(a: String, b: String, sep: CodeUnit)
    ensures Split(a + [sep] + b, sep) == Split(a, sep) + Split(b, sep)
    decreases |a|
  {
    var i := IndexOf(a, sep);
    if i == |a| {
      SplitAppend(a, b, sep);
      assert Split(a, sep) == [a];
    } else {
      var s := a + [sep] + b;
      IndexOfFirst(s, sep, i);
      assert s[..i] == a[..i];
      assert s[i + 1..] == a[i + 1..] + [sep] + b;
      SplitAppendSegments(a[i + 1..], b, sep);
    }
  }

  /** A key with no dot reads one property of the dictionary. */
  lemma SingleSegmentKey(dict: JsValue, key: String)
    requires Dot !in key
    ensures GetNestedValue(dict, key) ==
      if IsObjectLike(dict) && GetProp(dict, key).Str? then Some(GetProp(dict, key).s) else None
  {
    IndexOfFirst(key, Dot, |key|);
    assert key[..|key|] == key;
    assert Split(key, Dot) == [key];
  }

  /** A string has no children: below a key that names a string, every longer key finds nothing. */
  lemma StringHasNoChildren(dict: JsValue, key: String, more: String)
    requires GetNestedValue(dict, key).Some?
    ensures GetNestedValue(dict, key + [Dot] + more) == None
  {
    SplitAppendSegments(key, more, Dot);
    DescendAppend(dict, Split(key, Dot), Split(more, Dot));
  }

  /** The dictionary holding `leaf` under the path and nothing else. */
  function Nest(segments: seq<String>, leaf: JsValue): (v: JsValue)
    ensures |segments| > 0 ==> v.Obj? && v.props.Keys == {segments[0]}
  {
    if |segments| == 0 then leaf else Obj(map[segments[0] := Nest(segments[1..], leaf)])
  }

  /** Reading a string back along the path it was stored under. */
  lemma {:induction false} DescendNest(segments: seq<String>, leaf: JsValue)
    ensures Descend(Nest(segments, leaf), segments) == Some(leaf)
  {
    if |segments| > 0 {
      DescendNest(segments[1..], leaf);
    }
  }

  /** A dotted key, joined from segments without dots, finds the string nested under those segments. */
  lemma NestedRoundTrip(segments: seq<String>, s: String)
    requires |segments| >= 1
    requires forall k | 0 <= k < |segments| :: Dot !in segments[k]
    ensures GetNestedValue(Nest(segments, Str(s)), Join(segments, Dot)) == Some(s)
  {
    SplitJoin(segments, Dot);
    DescendNest(segments, Str(s));
  }

  // ---------------------------------------------------------------------------
  // interpolate
  // ---------------------------------------------------------------------------

  /** `\w`: an ASCII letter, a digit or `_`. */
  predicate IsWordUnit(c: CodeUnit) {
    48 <= c <= 57 || 65 <= c <= 90 || 97 <= c <= 122 || c == 95
  }

  /** A placeholder name: one or more word units. */
  predicate IsKey(key: String) {
    |key| > 0 && forall k | 0 <= k < |key| :: IsWordUnit(key[k])
  }

  /** The length of the longest run of word units at the front. */
  function WordRun(s: String): (n: nat)
    ensures n <= |s|
    ensures forall k | 0 <= k < n :: IsWordUnit(s[k])
    ensures n < |s| ==> !IsWordUnit(s[n])
  {
    if |s| == 0 || !IsWordUnit(s[0]) then 0 else 1 + WordRun(s[1..])
  }

  /** A parameter value: `string | number`. */
  datatype ParamValue = PStr(s: String) | PNum(x: JsNumber)

  type Params = map<String, ParamValue>

  /** `String(value)`. */
  function Render(v: ParamValue): String {
    match v
    case PStr(s) => s
    case PNum(x) => NumberToString(x)
  }

  function Placeholder(key: String): String {
    [OpenBrace] + key + [CloseBrace]
  }

  /**
   * `template.replace(/\{(\w+)\}/g, …)` scanning from the left: a match is
   * replaced by the rendered parameter, or kept as written when the name has
   * no value, and the scan resumes after the match.
   */
  function Substitute(s: String, params: Params): String
    decreases |s|
  {
    if |s| == 0 then []
    else if s[0] == OpenBrace then
      var n := WordRun(s[1..]);
      if n > 0 && n + 1 < |s| && s[n + 1] == CloseBrace then
        var key := s[1..n + 1];
        (if key in params then Render(params[key]) else Placeholder(key)) + Substitute(s[n + 2..], params)
      else [s[0]] + Substitute(s[1..], params)
    else [s[0]] + Substitute(s[1..], params)
  }

  /** `interpolate(template, params)`: without parameters the template comes back untouched. */
  function Interpolate(template: String, params: Option<Params>): (r: String)
    ensures params.None? ==> r == template
    ensures OpenBrace !in template ==> r == template
  {
    match params
    case None => template
    case Some(p) =>
      SubstituteNoBrace(template, p);
      Substitute(template, p)
  }

  /** Text without `{` holds no placeholder and comes back unchanged. */
  lemma SubstituteNoBrace(s: String, params: Params)
    ensures OpenBrace !in s ==> Substitute(s, params) == s
  {
    if OpenBrace !in s {
      PlainPrefix(s, [], params);
      assert s + [] == s;
    }
  }

  /** A placeholder at the front is replaced by its value, or kept when it has none, and its value is not scanned again. */
  lemma PlaceholderFilled(key: String, rest: String, params: Params)
    requires IsKey(key)
    ensures Substitute(Placeholder(key) + rest, params) ==
      (if key in params then Render(params[key]) else Placeholder(key)) + Substitute(rest, params)
  {
    var s := Placeholder(key) + rest;
    var t := [CloseBrace] + rest;
    var n := |key|;
    assert s[1..] == key + t;
    WordRunOfKey(key, t);
    assert s[1..n + 1] == key && s[n + 1] == CloseBrace && s[n + 2..] == rest;
    SubstituteMatch(s, n, params);
  }

  /** A scan at `{name}` replaces it and resumes after the `}`. */
  lemma SubstituteMatch(s: String, n: nat, params: Params)
    requires s != [] && s[0] == OpenBrace
    requires n > 0 && n + 1 < |s| && WordRun(s[1..]) == n && s[n + 1] == CloseBrace
    ensures Substitute(s, params) ==
      (if s[1..n + 1] in params then Render(params[s[1..n + 1]]) else Placeholder(s[1..n + 1])) + Substitute(s[n + 2..], params)
  {
  }

  /** The word run of a name followed by a non-word unit is the whole name. */
  lemma {:induction false} WordRunOfKey(key: String, t: String)
    requires forall k | 0 <= k < |key| :: IsWordUnit(key[k])
    requires t != [] && !IsWordUnit(t[0])
    ensures WordRun(key + t) == |key|
    decreases |key|
  {
    if |key| > 0 {
      assert (key + t)[1..] == key[1..] + t;
      WordRunOfKey(key[1..], t);
    } else {
      assert key + t == t;
    }
  }

  /** Text without `{` in front of the rest is copied as it is. */
  lemma {:induction false} PlainPrefix(a: String, rest: String, params: Params)
    requires OpenBrace !in a
    ensures Substitute(a + rest, params) == a + Substitute(rest, params)
    decreases |a|
  {
    if |a| > 0 {
      NotInParts(a, OpenBrace);
      PlainPrefix(a[1..], rest, params);
      PlainStep(a[0], a[1..], rest, params);
      assert [a[0]] + a[1..] == a;
    } else {
      assert a + rest == rest;
    }
  }

  lemma PlainStep(c: CodeUnit, t: String, rest: String, params: Params)
    requires c != OpenBrace
    requires Substitute(t + rest, params) == t + Substitute(rest, params)
    ensures Substitute([c] + t + rest, params) == [c] + t + Substitute(rest, params)
  {
    PlainHead(c, t + rest, params);
    assert [c] + t + rest == [c] + (t + rest);
    ConsAssoc(c, t, Substitute(rest, params));
  }

  /** A unit other than `{` at the front is copied and the scan moves on. */
  lemma PlainHead(c: CodeUnit, u: String, params: Params)
    requires c != OpenBrace
    ensures Substitute([c] + u, params) == [c] + Substitute(u, params)
  {
    assert ([c] + u)[1..] == u;
  }

  lemma ConsAssoc(c: CodeUnit, t: String, x: String)
    ensures [c] + (t + x) == [c] + t + x
  {
  }

  lemma NotInParts(a: String, c: CodeUnit)
    requires a != [] && c !in a
    ensures a[0] != c && c !in a[1..]
  {
    assert a == [a[0]] + a[1..];
  }

  /** An empty parameter object keeps every placeholder as written. */
  lemma {:induction false} SubstituteEmpty(s: String)
    ensures Substitute(s, map[]) == s
    decreases |s|
  {
    if |s| > 0 {
      if s[0] == OpenBrace {
        var n := WordRun(s[1..]);
        if n > 0 && n + 1 < |s| && s[n + 1] == CloseBrace {
          assert Placeholder(s[1..n + 1]) == s[..n + 2];
          SubstituteEmpty(s[n + 2..]);
          assert s == s[..n + 2] + s[n + 2..];
        } else {
          SubstituteEmpty(s[1..]);
        }
      } else {
        SubstituteEmpty(s[1..]);
      }
    }
  }

  /** A template described as literal text and placeholders. */
  datatype Piece = Literal(text: String) | Hole(key: String)

  predicate WellFormedPiece(p: Piece) {
    match p
    case Literal(text) => OpenBrace !in text
    case Hole(key) => IsKey(key)
  }

  /** The template text the pieces are written as. */
  function Write(pieces: seq<Piece>): String {
    if |pieces| == 0 then []
    else
      (match pieces[0] case Literal(text) => text case Hole(key) => Placeholder(key)) + Write(pieces[1..])
  }

  /** The pieces with every hole filled from the parameters, or written back when its name has no value. */
  function Fill(pieces: seq<Piece>, params: Params): String {
    if |pieces| == 0 then []
    else
      (match pieces[0]
       case Literal(text) => text
       case Hole(key) => if key in params then Render(params[key]) else Placeholder(key)) + Fill(pieces[1..], params)
  }

  /** Interpolating a template written from pieces fills the holes and copies the text, one piece at a time. */
  lemma {:induction false} InterpolateFills(pieces: seq<Piece>, params: Params)
    requires forall k | 0 <= k < |pieces| :: WellFormedPiece(pieces[k])
    ensures Interpolate(Write(pieces), Some(params)) == Fill(pieces, params)
  {
    if |pieces| > 0 {
      InterpolateFills(pieces[1..], params);
      assert WellFormedPiece(pieces[0]);
      match pieces[0]
      case Literal(text) => PlainPrefix(text, Write(pieces[1..]), params);
      case Hole(key) => PlaceholderFilled(key, Write(pieces[1..]), params);
    }
  }

  /** A value that itself looks like a placeholder stays in the output: `interpolate('{a}', {a: '{a}'})` is `{a}`. */
  lemma NoRescan()
    ensures var a: String := [97];
      Interpolate(Placeholder(a), Some(map[a := PStr(Placeholder(a))])) == Placeholder(a)
  {
    var a: String := [97];
    PlaceholderFilled(a, [], map[a := PStr(Placeholder(a))]);
  }

  // ---------------------------------------------------------------------------
  // Locales and t
  // ---------------------------------------------------------------------------

  datatype Locale = Zh | En

  const ZhName: String := [122, 104]
  const EnName: String := [101, 110]

  /** The value `setLocale` stores: `'zh'` or `'en'`. */
  function LocaleName(l: Locale): (name: String)
    ensures |name| == 2
  {
    if l == Zh then ZhName else EnName
  }

  /** `toggleLocale`: the other locale. */
  function Toggle(l: Locale): (r: Locale)
    ensures r != l
  {
    if l == Zh then En else Zh
  }

  lemma ToggleTwice(l: Locale)
    ensures Toggle(Toggle(l)) == l
  {
  }

  /** `localeTag`, the value given to `document.documentElement.lang`. */
  function LocaleTag(l: Locale): (tag: String)
    ensures |tag| == 5 && tag[2] == 45
    ensures tag[..2] == LocaleName(l)
  {
    if l == Zh then [122, 104, 45, 67, 78] else [101, 110, 45, 85, 83]
  }

  /** Toggling always changes the tag: the two tags differ. */
  lemma TagsDistinct()
    ensures LocaleTag(Zh) != LocaleTag(En)
  {
    assert LocaleTag(Zh)[0] != LocaleTag(En)[0];
  }

  /** What the browser offers `detectLocale`; `stored` is `None` when nothing is stored or storage throws. */
  datatype Browser = Browser(stored: Option<String>, language: String)

  /** `navigator.language.toLowerCase().startsWith('zh')`. */
  predicate NamesChinese(language: String) {
    |language| >= 2 && AsciiLower(language[..2]) == ZhName
  }

  /** `detectLocale()`: no window means Chinese; a stored `'zh'` or `'en'` wins; else the browser language decides. */
  function DetectLocale(browser: Option<Browser>): (l: Locale)
    ensures browser.None? ==> l == Zh
    ensures browser.Some? && browser.value.stored == Some(ZhName) ==> l == Zh
    ensures browser.Some? && browser.value.stored == Some(EnName) ==> l == En
  {
    match browser
    case None => Zh
    case Some(b) =>
      if b.stored == Some(ZhName) then Zh
      else if b.stored == Some(EnName) then En
      else if NamesChinese(b.language) then Zh
      else En
  }

  /** The locale `setLocale` stored is the one detected next time, whatever the browser language. */
  lemma DetectReadsSetLocale(l: Locale, language: String)
    ensures DetectLocale(Some(Browser(Some(LocaleName(l)), language))) == l
  {
  }

  /** Without a stored choice, Chinese is detected exactly for a language tag beginning with `zh` in either case. */
  lemma DetectFromLanguage(stored: Option<String>, language: String)
    requires stored != Some(ZhName) && stored != Some(EnName)
    ensures DetectLocale(Some(Browser(stored, language))) == Zh <==>
      |language| >= 2 && (language[0] == 122 || language[0] == 90) && (language[1] == 104 || language[1] == 72)
  {
    if |language| >= 2 {
      var p := AsciiLower(language[..2]);
      assert p == ZhName <==> p[0] == 122 && p[1] == 104;
    }
  }

  /** The two dictionaries of `translations`. */
  datatype Translations = Translations(zh: JsValue, en: JsValue)

  function Dictionary(ts: Translations, l: Locale): JsValue {
    if l == Zh then ts.zh else ts.en
  }

  /** The message `t` interpolates: the current locale's string, else the Chinese one, else the key. */
  function Message(ts: Translations, l: Locale, key: String): (m: String)
    ensures GetNestedValue(Dictionary(ts, l), key).Some? ==> m == GetNestedValue(Dictionary(ts, l), key).value
    ensures GetNestedValue(Dictionary(ts, l), key).None? && GetNestedValue(ts.zh, key).Some? ==>
      m == GetNestedValue(ts.zh, key).value
    ensures GetNestedValue(Dictionary(ts, l), key).None? && GetNestedValue(ts.zh, key).None? ==> m == key
  {
    match GetNestedValue(Dictionary(ts, l), key)
    case Some(m) => m
    case None =>
      match GetNestedValue(ts.zh, key)
      case Some(m) => m
      case None => key
  }

  /** `t(key, params)`. */
  function Translate(ts: Translations, l: Locale, key: String, params: Option<Params>): (r: String)
    ensures params.None? ==> r == Message(ts, l, key)
  {
    Interpolate(Message(ts, l, key), params)
  }

  /** A key the English dictionary lacks is translated as in Chinese. */
  lemma EnglishFallsBack(ts: Translations, key: String, params: Option<Params>)
    requires GetNestedValue(ts.en, key).None?
    ensures Translate(ts, En, key, params) == Translate(ts, Zh, key, params)
  {
  }

  /** In Chinese the English dictionary plays no part. */
  lemma ChineseIgnoresEnglish(ts: Translations, en: JsValue, key: String, params: Option<Params>)
    ensures Translate(ts, Zh, key, params) == Translate(Translations(ts.zh, en), Zh, key, params)
  {
  }

  /** A key found nowhere is shown as the key itself, interpolated. */
  lemma MissingKeyEchoes(ts: Translations, l: Locale, key: String, params: Option<Params>)
    requires GetNestedValue(ts.zh, key).None? && GetNestedValue(ts.en, key).None?
    ensures Translate(ts, l, key, params) == Interpolate(key, params)
    ensures OpenBrace !in key ==> Translate(ts, l, key, params) == key
  {
  }

  /** A string stored under a dotted key in the current locale's dictionary is what `t` shows, filled in. */
  lemma TranslateNested(ts: Translations, l: Locale, segments: seq<String>, s: String, params: Option<Params>)
    requires |segments| >= 1
    requires forall k | 0 <= k < |segments| :: Dot !in segments[k]
    requires Dictionary(ts, l) == Nest(segments, Str(s))
    ensures Translate(ts, l, Join(segments, Dot), params) == Interpolate(s, params)
  {
    NestedRoundTrip(segments, s);
  }
}
