/**
 * The message templates of the image converter. A template is text with `${key}`
 * placeholders and `$$` escapes. This module holds two things:
 * - the converter's type-level tokenizer, which splits a template into literal and
 *   placeholder tokens and derives the parameters a message needs;
 * - the run-time substitution its `localize` applies (a global regex replace).
 * The main lemma says the two agree.
 */
module Template {
  import opened Wrappers
  import opened JsText

  /** A fixed piece of text, or a placeholder `[KEY]`. */
  datatype Token = Literal(text: string) | Placeholder(key: string)

  /** `[^${}]`: the characters a placeholder key of the run-time pattern may hold. */
  predicate IsKeyChar(c: char) {
    c != '$' && c != '{' && c != '}'
  }

  /** A key the tokenizer accepts as a placeholder: non-empty, without `$`, `{` or `}`. */
  predicate IsPlainKey(key: string) {
    key != "" && forall i :: 0 <= i < |key| ==> IsKeyChar(key[i])
  }

  /** `Tokenize<S>`: a text without `$` is one literal; otherwise the first `$` decides. */
  function Tokenize(s: string): (r: seq<Token>)
    ensures |r| >= 1
    ensures (r == [Literal(s)]) == ('$' !in s)
    ensures forall i :: 0 <= i < |r| && r[i].Placeholder? ==> IsPlainKey(r[i].key)
    decreases |s|, 0
  {
    match FindChar(s, 0, '$')
    case None => [Literal(s)]
    case Some(i) =>
      assert s[i] in s;
      TokenizeAfter(s[..i], s[i + 1..])
  }

  /**
   * The tokens of `PRE$POST`, where PRE holds no `$`:
   * - `$$` is the literal `$`;
   * - `${KEY}`, with KEY running up to the first `}`, is a placeholder;
   * - an empty KEY leaves `${}` literal;
   * - a KEY holding `$` or `{` leaves `${` literal and re-reads what follows;
   * - any other `$` is literal.
   */
  function TokenizeAfter(pre: string, post: string): (r: seq<Token>)
    ensures |r| >= 2
    ensures forall i :: 0 <= i < |r| && r[i].Placeholder? ==> IsPlainKey(r[i].key)
    decreases |post|, 1
  {
    if |post| > 0 && post[0] == '$' then [Literal(pre + "$")] + Tokenize(post[1..])
    else if |post| > 0 && post[0] == '{' && FindChar(post, 1, '}').Some? then
      var close := FindChar(post, 1, '}').value;
      var key := post[1..close];
      if key == "" then [Literal(pre + "${}")] + Tokenize(post[close + 1..])
      else if '$' in key || '{' in key then [Literal(pre + "${")] + Tokenize(post[1..])
      else
        assert forall j :: 0 <= j < |key| ==> key[j] == post[1 + j] && key[j] in key;
        [Literal(pre), Placeholder(key)] + Tokenize(post[close + 1..])
    else [Literal(pre + "$")] + Tokenize(post)
  }

  /** The keys of the placeholder tokens. */
  function Keys(tokens: seq<Token>): (r: set<string>)
    ensures forall k :: k in r <==> exists i :: 0 <= i < |tokens| && tokens[i] == Placeholder(k)
  {
    if tokens == [] then {}
    else
      var rest := Keys(tokens[1..]);
      assert forall i :: 0 < i < |tokens| ==> tokens[i] == tokens[1..][i - 1];
      if tokens[0].Placeholder? then {tokens[0].key} + rest else rest
  }

  /** `TemplateParameters<S>`: the keys of a template's placeholders. */
  function TemplateParameters(s: string): set<string> {
    Keys(Tokenize(s))
  }

  /** Every parameter of a template is a key the run-time pattern can capture. */
  lemma ParametersArePlainKeys(s: string)
    ensures forall k :: k in TemplateParameters(s) ==> IsPlainKey(k)
  {
    forall k | k in TemplateParameters(s) ensures IsPlainKey(k) {
      var i :| 0 <= i < |Tokenize(s)| && Tokenize(s)[i] == Placeholder(k);
    }
  }

  /** `params?.[key] ?? ''` */
  function Lookup(params: map<string, string>, key: string): string {
    if key in params then params[key] else ""
  }

  /**
   * `t.replace(/\$(?:\$|\{([^${}]*)\})/g, …)`. It turns `$$` into `$` and a non-empty
   * `${key}` into the parameter, and leaves `${}` and any other `$` as they are.
   */
  function Substitute(t: string, params: map<string, string>): string
    decreases |t|
  {
    if t == [] then ""
    else if t[0] != '$' then [t[0]] + Substitute(t[1..], params)
    else if |t| > 1 && t[1] == '$' then "$" + Substitute(t[2..], params)
    else if |t| > 1 && t[1] == '{' && RunEnd(t, 2, IsKeyChar) < |t| && t[RunEnd(t, 2, IsKeyChar)] == '}' then
      var e := RunEnd(t, 2, IsKeyChar);
      var key := t[2..e];
      (if key == "" then "${}" else Lookup(params, key)) + Substitute(t[e + 1..], params)
    else "$" + Substitute(t[1..], params)
  }

  /** The template with each placeholder replaced by its parameter, or by `''` when missing. */
  function Instantiate(tokens: seq<Token>, params: map<string, string>): string {
    if tokens == [] then ""
    else
      (match tokens[0]
       case Literal(text) => text
       case Placeholder(key) => Lookup(params, key)) + Instantiate(tokens[1..], params)
  }

  lemma InstantiateLiteral(text: string, rest: seq<Token>, params: map<string, string>)
    ensures Instantiate([Literal(text)] + rest, params) == text + Instantiate(rest, params)
  {
    assert ([Literal(text)] + rest)[1..] == rest;
  }

  lemma InstantiatePlaceholder(pre: string, key: string, rest: seq<Token>, params: map<string, string>)
    ensures Instantiate([Literal(pre), Placeholder(key)] + rest, params) == pre + Lookup(params, key) + Instantiate(rest, params)
  {
    var tokens := [Literal(pre), Placeholder(key)] + rest;
    assert tokens[1..] == [Placeholder(key)] + rest;
    assert tokens[1..][1..] == rest;
  }

  /** Text before the first `$` is copied unchanged. */
  lemma {:induction false} SubstituteCopies(s: string, i: nat, params: map<string, string>)
    requires i <= |s| && forall j :: 0 <= j < i ==> s[j] != '$'
    ensures Substitute(s, params) == s[..i] + Substitute(s[i..], params)
    decreases i
  {
    if i > 0 {
      SubstituteCopies(s[1..], i - 1, params);
      assert s[1..][i - 1..] == s[i..];
      assert s[..i] == [s[0]] + s[1..][..i - 1];
    }
  }

  /** `$$` is replaced by `$`. */
  lemma SubstituteEscape(post: string, params: map<string, string>)
    requires |post| > 0 && post[0] == '$'
    ensures Substitute("$" + post, params) == "$" + Substitute(post[1..], params)
  {
    assert ("$" + post)[2..] == post[1..];
  }

  /** A `${…}` whose key holds `$` or `{` is not a match: `$` and `{` stay. */
  lemma SubstituteBrokenKey(post: string, close: nat, params: map<string, string>)
    requires |post| > 0 && post[0] == '{' && FindChar(post, 1, '}') == Some(close)
    requires '$' in post[1..close] || '{' in post[1..close]
    ensures Substitute("$" + post, params) == "${" + Substitute(post[1..], params)
  {
    var u := "$" + post;
    var key := post[1..close];
    var j :| 0 <= j < |key| && (key[j] == '$' || key[j] == '{');
    assert u[j + 2] == key[j];
    var e := RunEnd(u, 2, IsKeyChar);
    assert e <= j + 2 < close + 1;
    assert u[e] == post[e - 1] != '}';
    assert u[1..] == post;
    assert Substitute(u, params) == "$" + Substitute(post, params);
    assert Substitute(post, params) == "{" + Substitute(post[1..], params);
  }

  /** `${}` stays and a plain `${key}` becomes the parameter. */
  lemma SubstituteKey(post: string, close: nat, params: map<string, string>)
    requires |post| > 0 && post[0] == '{' && FindChar(post, 1, '}') == Some(close)
    requires !('$' in post[1..close] || '{' in post[1..close])
    ensures var key := post[1..close];
      Substitute("$" + post, params) ==
        (if key == "" then "${}" else Lookup(params, key)) + Substitute(post[close + 1..], params)
  {
    var u := "$" + post;
    var key := post[1..close];
    forall j | 2 <= j < close + 1 ensures IsKeyChar(u[j]) {
      assert u[j] == post[j - 1] == key[j - 2];
      assert key[j - 2] in key;
    }
    assert u[close + 1] == '}';
    assert RunEnd(u, 2, IsKeyChar) == close + 1;
    assert u[2..close + 1] == key;
    assert u[close + 2..] == post[close + 1..];
  }

  /** Any other `$` stays. */
  lemma SubstituteLoneDollar(post: string, params: map<string, string>)
    requires !(|post| > 0 && post[0] == '$')
    requires !(|post| > 0 && post[0] == '{' && FindChar(post, 1, '}').Some?)
    ensures Substitute("$" + post, params) == "$" + Substitute(post, params)
  {
    var u := "$" + post;
    assert u[1..] == post;
  }

  /** Where `s` holds a `$`, the text before it is copied and the rest starts at the `$`. */
  lemma SubstituteFromDollar(s: string, i: nat, params: map<string, string>)
    requires FindChar(s, 0, '$') == Some(i)
    ensures Substitute(s, params) == s[..i] + Substitute("$" + s[i + 1..], params)
  {
    SubstituteCopies(s, i, params);
    assert s[i..] == "$" + s[i + 1..];
  }

  lemma EscapeCase(pre: string, post: string, params: map<string, string>)
    requires |post| > 0 && post[0] == '$'
    requires Substitute(post[1..], params) == Instantiate(Tokenize(post[1..]), params)
    ensures Instantiate(TokenizeAfter(pre, post), params) == pre + Substitute("$" + post, params)
  {
    var rest := Tokenize(post[1..]);
    calc {
      Instantiate(TokenizeAfter(pre, post), params);
      Instantiate([Literal(pre + "$")] + rest, params);
      { InstantiateLiteral(pre + "$", rest, params); }
      (pre + "$") + Instantiate(rest, params);
      pre + ("$" + Substitute(post[1..], params));
      { SubstituteEscape(post, params); }
      pre + Substitute("$" + post, params);
    }
  }

  lemma BrokenKeyCase(pre: string, post: string, close: nat, params: map<string, string>)
    requires |post| > 0 && post[0] == '{' && FindChar(post, 1, '}') == Some(close)
    requires '$' in post[1..close] || '{' in post[1..close]
    requires Substitute(post[1..], params) == Instantiate(Tokenize(post[1..]), params)
    ensures Instantiate(TokenizeAfter(pre, post), params) == pre + Substitute("$" + post, params)
  {
    var rest := Tokenize(post[1..]);
    calc {
      Instantiate(TokenizeAfter(pre, post), params);
      Instantiate([Literal(pre + "${")] + rest, params);
      { InstantiateLiteral(pre + "${", rest, params); }
      (pre + "${") + Instantiate(rest, params);
      pre + ("${" + Substitute(post[1..], params));
      { SubstituteBrokenKey(post, close, params); }
      pre + Substitute("$" + post, params);
    }
  }

  lemma SubstituteEmptyKey(post: string, params: map<string, string>)
    requires |post| > 1 && post[0] == '{' && post[1] == '}'
    ensures Substitute("$" + post, params) == "${}" + Substitute(post[2..], params)
  {
    var u := "$" + post;
    assert u[2] == '}' && !IsKeyChar(u[2]);
    assert RunEnd(u, 2, IsKeyChar) == 2;
    assert u[2..2] == "" && u[3..] == post[2..];
  }

  lemma TokenizeAfterEmptyKey(pre: string, post: string)
    requires |post| > 1 && post[0] == '{' && FindChar(post, 1, '}') == Some(1)
    ensures TokenizeAfter(pre, post) == [Literal(pre + "${}")] + Tokenize(post[2..])
  {
    assert post[1..1] == "";
  }

  lemma EmptyKeyCase(pre: string, post: string, params: map<string, string>)
    requires |post| > 1 && post[0] == '{' && FindChar(post, 1, '}') == Some(1)
    requires Substitute(post[2..], params) == Instantiate(Tokenize(post[2..]), params)
    ensures Instantiate(TokenizeAfter(pre, post), params) == pre + Substitute("$" + post, params)
  {
    var rest := Tokenize(post[2..]);
    calc {
      Instantiate(TokenizeAfter(pre, post), params);
      { TokenizeAfterEmptyKey(pre, post); }
      Instantiate([Literal(pre + "${}")] + rest, params);
      { InstantiateLiteral(pre + "${}", rest, params); }
      (pre + "${}") + Instantiate(rest, params);
      pre + ("${}" + Substitute(post[2..], params));
      { SubstituteEmptyKey(post, params); }
      pre + Substitute("$" + post, params);
    }
  }

  lemma PlaceholderCase(pre: string, post: string, close: nat, params: map<string, string>)
    requires |post| > 0 && post[0] == '{' && FindChar(post, 1, '}') == Some(close) && close > 1
    requires !('$' in post[1..close] || '{' in post[1..close])
    requires Substitute(post[close + 1..], params) == Instantiate(Tokenize(post[close + 1..]), params)
    ensures Instantiate(TokenizeAfter(pre, post), params) == pre + Substitute("$" + post, params)
  {
    var key := post[1..close];
    var rest := Tokenize(post[close + 1..]);
    assert key != "";
    assert TokenizeAfter(pre, post) == [Literal(pre), Placeholder(key)] + rest;
    InstantiatePlaceholder(pre, key, rest, params);
    SubstituteKey(post, close, params);
  }

  lemma LoneDollarCase(pre: string, post: string, params: map<string, string>)
    requires !(|post| > 0 && post[0] == '$')
    requires !(|post| > 0 && post[0] == '{' && FindChar(post, 1, '}').Some?)
    requires Substitute(post, params) == Instantiate(Tokenize(post), params)
    ensures Instantiate(TokenizeAfter(pre, post), params) == pre + Substitute("$" + post, params)
  {
    var rest := Tokenize(post);
    calc {
      Instantiate(TokenizeAfter(pre, post), params);
      Instantiate([Literal(pre + "$")] + rest, params);
      { InstantiateLiteral(pre + "$", rest, params); }
      (pre + "$") + Instantiate(rest, params);
      pre + ("$" + Substitute(post, params));
      { SubstituteLoneDollar(post, params); }
      pre + Substitute("$" + post, params);
    }
  }

  /**
   * The run-time substitution yields exactly the tokenized template with its placeholders
   * filled in: the placeholders of the type are the keys the regex replaces.
   */
  lemma {:induction false} SubstituteIsInstantiate(s: string, params: map<string, string>)
    ensures Substitute(s, params) == Instantiate(Tokenize(s), params)
    decreases |s|, 0
  {
    match FindChar(s, 0, '$')
    case None =>
      SubstituteCopies(s, |s|, params);
      assert s[..|s|] == s;
    case Some(i) =>
      SubstituteFromDollar(s, i, params);
      SubstituteAfterIsInstantiate(s[..i], s[i + 1..], params);
  }

  /** The same, for the text from a `$` on. */
  lemma {:induction false} SubstituteAfterIsInstantiate(pre: string, post: string, params: map<string, string>)
    ensures Instantiate(TokenizeAfter(pre, post), params) == pre + Substitute("$" + post, params)
    decreases |post|, 1
  {
    if |post| > 0 && post[0] == '$' {
      SubstituteIsInstantiate(post[1..], params);
      EscapeCase(pre, post, params);
    } else if |post| > 0 && post[0] == '{' && FindChar(post, 1, '}').Some? {
      var close := FindChar(post, 1, '}').value;
      if '$' in post[1..close] || '{' in post[1..close] {
        SubstituteIsInstantiate(post[1..], params);
        BrokenKeyCase(pre, post, close, params);
      } else if close == 1 {
        SubstituteIsInstantiate(post[2..], params);
        EmptyKeyCase(pre, post, params);
      } else {
        SubstituteIsInstantiate(post[close + 1..], params);
        PlaceholderCase(pre, post, close, params);
      }
    } else {
      SubstituteIsInstantiate(post, params);
      LoneDollarCase(pre, post, params);
    }
  }

  /** Parameters that agree on the placeholders' keys give the same text. */
  lemma {:induction false} InstantiateLocal(tokens: seq<Token>, p: map<string, string>, q: map<string, string>)
    requires forall k :: k in Keys(tokens) ==> Lookup(p, k) == Lookup(q, k)
    ensures Instantiate(tokens, p) == Instantiate(tokens, q)
  {
    if tokens != [] {
      assert forall k :: k in Keys(tokens[1..]) ==> k in Keys(tokens) by {
        forall k | k in Keys(tokens[1..]) ensures k in Keys(tokens) {
          var i :| 0 <= i < |tokens[1..]| && tokens[1..][i] == Placeholder(k);
          assert tokens[i + 1] == Placeholder(k);
        }
      }
      InstantiateLocal(tokens[1..], p, q);
      if tokens[0].Placeholder? {
        assert tokens[0] == Placeholder(tokens[0].key);
      }
    }
  }

  /** Giving a placeholder a one-character value lengthens the text it yields. */
  lemma {:induction false} InstantiateGrows(tokens: seq<Token>, k: string)
    ensures |Instantiate(tokens, map[])| <= |Instantiate(tokens, map[k := "x"])|
    ensures k in Keys(tokens) ==> |Instantiate(tokens, map[])| < |Instantiate(tokens, map[k := "x"])|
  {
    if tokens != [] {
      InstantiateGrows(tokens[1..], k);
      if k in Keys(tokens) && tokens[0] != Placeholder(k) {
        var i :| 0 <= i < |tokens| && tokens[i] == Placeholder(k);
        assert tokens[1..][i - 1] == Placeholder(k);
      }
    }
  }

  /** The substituted text depends on the parameters only through the template's keys. */
  lemma SubstituteLocal(s: string, p: map<string, string>, q: map<string, string>)
    requires forall k :: k in TemplateParameters(s) ==> Lookup(p, k) == Lookup(q, k)
    ensures Substitute(s, p) == Substitute(s, q)
  {
    SubstituteIsInstantiate(s, p);
    SubstituteIsInstantiate(s, q);
    InstantiateLocal(Tokenize(s), p, q);
  }

  /**
   * `LocalizeParameter<KEY>` is `[]` exactly when the template has no placeholders.
   * Without placeholders no parameters change the text. With one, some parameters do.
   */
  lemma ParametersNeededIff(s: string)
    ensures TemplateParameters(s) == {} ==> forall p :: Substitute(s, p) == Substitute(s, map[])
    ensures TemplateParameters(s) != {} ==> exists k :: Substitute(s, map[k := "x"]) != Substitute(s, map[])
  {
    if TemplateParameters(s) == {} {
      forall p ensures Substitute(s, p) == Substitute(s, map[]) {
        SubstituteLocal(s, p, map[]);
      }
    } else {
      var k :| k in TemplateParameters(s);
      SubstituteIsInstantiate(s, map[]);
      SubstituteIsInstantiate(s, map[k := "x"]);
      InstantiateGrows(Tokenize(s), k);
    }
  }

  /**
   * `ConcatTokens<TOKENS>`: the template literal type in which each literal stands for
   * itself and each placeholder for any string.
   */
  predicate Fits(tokens: seq<Token>, t: string)
    decreases |tokens|
  {
    if tokens == [] then t == ""
    else match tokens[0]
      case Literal(text) => StartsWith(t, text) && Fits(tokens[1..], t[|text|..])
      case Placeholder(_) => exists k :: 0 <= k <= |t| && Fits(tokens[1..], t[k..])
  }

  /** Filling in the placeholders gives a string of the template literal type. */
  lemma {:induction false} InstantiateFits(tokens: seq<Token>, params: map<string, string>)
    ensures Fits(tokens, Instantiate(tokens, params))
  {
    if tokens != [] {
      var t := Instantiate(tokens, params);
      var head := match tokens[0] case Literal(text) => text case Placeholder(key) => Lookup(params, key);
      InstantiateFits(tokens[1..], params);
      assert t[|head|..] == Instantiate(tokens[1..], params);
      if tokens[0].Literal? {
        assert t[..|head|] == head;
      }
    }
  }

  /** `ParameterizedTemplate<S>`: the substituted text of an untranslated message has the message's template type. */
  lemma SubstituteFits(s: string, params: map<string, string>)
    ensures Fits(Tokenize(s), Substitute(s, params))
  {
    SubstituteIsInstantiate(s, params);
    InstantiateFits(Tokenize(s), params);
  }

  /**
   * The overload for messages missing from the maps promises the message itself as the
   * result type; the substitution still turns `$$` into `$`, so the result can differ.
   */
  lemma EscapedMessageChanges()
    ensures Substitute("a$$b", map[]) == "a$b" != "a$$b"
  {
  }

  /** The placeholders of a message and of its translation that differ. */
  function Mismatch(message: string, translation: string): (r: set<string>)
    ensures r == {} <==> TemplateParameters(message) == TemplateParameters(translation)
  {
    var a, b := TemplateParameters(message), TemplateParameters(translation);
    assert a != b ==> (exists k :: k in a && k !in b) || (exists k :: k in b && k !in a);
    (a - b) + (b - a)
  }

  /**
   * `ValidationLocaleMap<MAP>`: a translation is accepted when it has the same placeholders
   * as its message.
   */
  predicate ValidLocaleMap(m: map<string, string>) {
    forall message :: message in m ==> Mismatch(message, m[message]) == {}
  }

  /** `ValidationLocaleMaps<MAPS>`: every language's map is valid. */
  predicate ValidLocaleMaps(maps: map<string, map<string, string>>) {
    forall locale :: locale in maps ==> ValidLocaleMap(maps[locale])
  }

  /** `$$` is a literal ending in one `$`, and tokenizing goes on after it. */
  lemma TokenizeEscape()
    ensures Tokenize("a$$b") == [Literal("a$"), Literal("b")]
  {
    var s := "a$$b";
    assert FindChar(s, 0, '$') == Some(1);
    assert s[..1] == "a" && s[2..] == "$b" && "$b"[0] == '$' && "$b"[1..] == "b";
    assert Tokenize("b") == [Literal("b")];
    assert "a" + "$" == "a$";
  }

  /** `${}` stays a literal. */
  lemma TokenizeEmptyKey()
    ensures Tokenize("${}") == [Literal("${}"), Literal("")]
  {
    var s := "${}";
    assert FindChar(s, 0, '$') == Some(0);
    assert s[..0] == "" && s[1..] == "{}";
    assert FindChar("{}", 1, '}') == Some(1);
    assert "{}"[0] == '{' && "{}"[1..1] == "" && "{}"[2..] == "";
    assert Tokenize("") == [Literal("")];
    assert "" + "${}" == "${}";
  }

  /** A key holding `$` leaves `${` literal and the rest is tokenized again. */
  lemma TokenizeBrokenKey()
    ensures Tokenize("${$}") == [Literal("${"), Literal("$"), Literal("}")]
  {
    assert FindChar("${$}", 0, '$') == Some(0);
    assert "${$}"[..0] == "" && "${$}"[1..] == "{$}";
    TokenizeAfterBrokenKey();
    TokenizeLoneDollar();
  }

  lemma TokenizeAfterBrokenKey()
    ensures TokenizeAfter("", "{$}") == [Literal("${")] + Tokenize("$}")
  {
    var post := "{$}";
    assert post[1] != '}' && post[2] == '}';
    assert FindChar(post, 1, '}') == Some(2);
    assert post[1..2] == "$" && "$"[0] == '$';
    assert post[1..] == "$}";
    assert post[0] == '{' && "" + "${" == "${";
  }

  lemma TokenizeLoneDollar()
    ensures Tokenize("$}") == [Literal("$"), Literal("}")]
  {
    assert FindChar("$}", 0, '$') == Some(0);
    assert "$}"[..0] == "" && "$}"[1..] == "}";
    assert "}"[1..] == "" && "}"[0] == '}';
    assert Tokenize("}") == [Literal("}")];
    assert "" + "$" == "$";
  }

  /** `${key}` is the literal before it followed by the placeholder. */
  lemma TokenizePlaceholder()
    ensures Tokenize("at ${k}!") == [Literal("at "), Placeholder("k"), Literal("!")]
  {
    var s := "at ${k}!";
    assert FindChar(s, 0, '$') == Some(3);
    assert s[..3] == "at " && s[4..] == "{k}!";
    assert FindChar("{k}!", 1, '}') == Some(2);
    assert "{k}!"[1..2] == "k" && "{k}!"[3..] == "!";
  }
}
