/** `buildUrl(path, params)` (shared/routes.ts, lines 93-103): fill a route
    template such as `/api/conversations/:id` by replacing, for each
    parameter in turn, the first occurrence of `:<key>` in the URL built so
    far with `String(value)`.

    The source performs the replacement with `String.prototype.replace`,
    which expands `$` patterns in the replacement text (section 22.1.3.19.1,
    GetSubstitution, of ECMAScript 2023). `BuildUrlAsWritten` models that;
    `BuildUrl` substitutes the value literally, which is what the template
    evidently means, and is the one the rest of the model uses. The two
    agree whenever no value holds a `$`, in particular for numeric ids. */
module Routes {
  import opened Wrappers
  import opened Text

  datatype ParamValue = Str(s: string) | Num(n: int)

  /** `String(value)`; numbers are integers in this model. */
  function ValueString(v: ParamValue): string {
    match v
    case Str(s) => s
    case Num(n) => IntDecimal(n)
  }

  /** The parameters in `Object.entries` order. */
  type Params = seq<(string, ParamValue)>

  /** `s.includes(pat)` */
  predicate Contains(s: string, pat: string) {
    exists k :: 0 <= k <= |s| && OccursAt(s, pat, k)
  }

  /** The text `:<key>` a parameter fills. */
  function Placeholder(key: string): (r: string)
    ensures |r| == |key| + 1 && r[0] == ':'
  {
    [':'] + key
  }

  /** The first occurrence of `pat` in `s` is at `i`. */
  predicate FirstAt(s: string, pat: string, i: int) {
    OccursAt(s, pat, i) && forall k :: 0 <= k < i ==> !OccursAt(s, pat, k)
  }

  lemma FirstAtUnique(s: string, pat: string, i: int, j: int)
    requires FirstAt(s, pat, i) && FirstAt(s, pat, j)
    ensures i == j
  {
  }

  /** The first occurrence of `pat`, when there is one. */
  function FindFirst(s: string, pat: string): (r: Option<nat>)
    ensures r.Some? <==> Contains(s, pat)
    ensures r.Some? ==> FirstAt(s, pat, r.value)
  {
    IndexOf(s, pat, 0)
  }

  /** The first occurrence of `pat` in `s` replaced by `repl` verbatim. */
  function ReplaceFirst(s: string, pat: string, repl: string): (r: string)
    ensures !Contains(s, pat) ==> r == s
    ensures forall i :: FirstAt(s, pat, i) ==> r == s[..i] + repl + s[i + |pat|..]
    ensures Contains(s, pat) ==> |r| == |s| + |repl| - |pat|
  {
    match FindFirst(s, pat)
    case None => s
    case Some(i) =>
      forall j | FirstAt(s, pat, j) ensures j == i { FirstAtUnique(s, pat, i, j); }
      s[..i] + repl + s[i + |pat|..]
  }

  // ---------------------------------------------------------------------------
  // buildUrl, substituting literally
  // ---------------------------------------------------------------------------

  /** One iteration of the `forEach`: `if (url.includes(`:${key}`)) url =
      url.replace(`:${key}`, String(value))`. */
  function Entry(url: string, e: (string, ParamValue)): (r: string)
    ensures !Contains(url, Placeholder(e.0)) ==> r == url
    ensures forall i :: FirstAt(url, Placeholder(e.0), i) ==>
              r == url[..i] + ValueString(e.1) + url[i + |e.0| + 1..]
    ensures Contains(url, Placeholder(e.0)) ==> |r| == |url| + |ValueString(e.1)| - (|e.0| + 1)
  {
    var pat := Placeholder(e.0);
    if Contains(url, pat) then ReplaceFirst(url, pat, ValueString(e.1)) else url
  }

  /** The entries applied in order, each to the URL the previous ones left. */
  function Substitute(url: string, ps: Params): string
    decreases |ps|
  {
    if |ps| == 0 then url else Substitute(Entry(url, ps[0]), ps[1..])
  }

  /** `buildUrl(path, params)`; an absent `params` returns the path. */
  function BuildUrl(path: string, params: Option<Params>): (r: string)
    ensures params.None? ==> r == path
  {
    match params
    case None => path
    case Some(ps) => Substitute(path, ps)
  }

  /** The substitution is sequential: the last entry works on the URL the
      earlier ones produced. */
  lemma {:induction false} SubstituteSnoc(url: string, ps: Params, e: (string, ParamValue))
    ensures Substitute(url, ps + [e]) == Entry(Substitute(url, ps), e)
    decreases |ps|
  {
    if |ps| == 0 {
      assert ps + [e] == [e];
      assert [e][1..] == [];
    } else {
      assert (ps + [e])[0] == ps[0];
      assert (ps + [e])[1..] == ps[1..] + [e];
      SubstituteSnoc(Entry(url, ps[0]), ps[1..], e);
    }
  }

  /** With no entries, or entries whose placeholders do not occur, the
      path comes back unchanged. */
  lemma {:induction false} UnmatchedKeysKeepPath(path: string, ps: Params)
    requires forall k :: 0 <= k < |ps| ==> !Contains(path, Placeholder(ps[k].0))
    ensures Substitute(path, ps) == path
    decreases |ps|
  {
    if |ps| > 0 {
      assert Entry(path, ps[0]) == path;
      UnmatchedKeysKeepPath(path, ps[1..]);
    }
  }

  /** `s` holds no `:`. */
  predicate NoColon(s: string) {
    ':' !in s
  }

  lemma NoColonAt(s: string, k: int)
    requires NoColon(s) && 0 <= k < |s|
    ensures s[k] != ':'
  {
    assert s[k] in s;
  }

  /** The pieces of a template around its placeholder. */
  lemma TemplateParts(pre: string, pat: string, suf: string)
    ensures var s := pre + pat + suf;
            && s[..|pre|] == pre
            && s[|pre|..|pre| + |pat|] == pat
            && s[|pre| + |pat|..] == suf
  {
  }

  /** A template whose only placeholder up to `:key` is that one. */
  lemma PlaceholderFirst(pre: string, key: string, suf: string)
    requires NoColon(pre)
    ensures FirstAt(pre + (Placeholder(key)) + suf, Placeholder(key), |pre|)
  {
    var pat := Placeholder(key);
    var s := pre + pat + suf;
    TemplateParts(pre, pat, suf);
    forall k | 0 <= k < |pre|
      ensures !OccursAt(s, pat, k)
    {
      NoColonAt(pre, k);
      assert s[k] == pre[k];
      if k + |pat| <= |s| {
        assert s[k..k + |pat|][0] == s[k];
      }
    }
  }

  /** One key filling a template: the placeholder is replaced by the value
      and the rest kept. Matching is plain text, so `suf` may continue the
      placeholder's name: the key `id` fills `:idx`, leaving the `x`. */
  lemma SingleKey(pre: string, key: string, suf: string, v: ParamValue)
    requires NoColon(pre)
    ensures BuildUrl(pre + (Placeholder(key)) + suf, Some([(key, v)])) == pre + ValueString(v) + suf
  {
    var s := pre + (Placeholder(key)) + suf;
    PlaceholderFirst(pre, key, suf);
    TemplateParts(pre, Placeholder(key), suf);
    assert Contains(s, Placeholder(key)) by { assert OccursAt(s, Placeholder(key), |pre|); }
    assert Entry(s, (key, v)) == s[..|pre|] + ValueString(v) + s[|pre| + |key| + 1..];
    var ps := [(key, v)];
    assert ps[1..] == [] && ps[0] == (key, v);
    assert Substitute(s, ps) == Substitute(Entry(s, (key, v)), []);
  }

  /** The conversation routes with a numeric id. */
  lemma ConversationUrls(n: int)
    ensures BuildUrl("/api/conversations/:id", Some([("id", Num(n))])) == "/api/conversations/" + IntDecimal(n)
    ensures BuildUrl("/api/conversations/:id/messages", Some([("id", Num(n))]))
            == "/api/conversations/" + IntDecimal(n) + "/messages"
  {
    ConversationUrl(n);
    MessagesUrl(n);
  }

  /** The two route templates around their `:id`. */
  lemma Templates()
    ensures NoColon("/api/conversations/")
    ensures "/api/conversations/" + Placeholder("id") == "/api/conversations/:id"
    ensures "/api/conversations/" + Placeholder("id") + "/messages" == "/api/conversations/:id/messages"
  {
  }

  lemma EmptyRight(s: string)
    ensures s + "" == s
  {
  }

  lemma ConversationUrl(n: int)
    ensures BuildUrl("/api/conversations/:id", Some([("id", Num(n))])) == "/api/conversations/" + IntDecimal(n)
  {
    Templates();
    SingleKey("/api/conversations/", "id", "", Num(n));
    EmptyRight("/api/conversations/" + Placeholder("id"));
    EmptyRight("/api/conversations/" + IntDecimal(n));
  }

  lemma MessagesUrl(n: int)
    ensures BuildUrl("/api/conversations/:id/messages", Some([("id", Num(n))]))
            == "/api/conversations/" + IntDecimal(n) + "/messages"
  {
    Templates();
    SingleKey("/api/conversations/", "id", "/messages", Num(n));
  }

  // ---------------------------------------------------------------------------
  // buildUrl as written: `String.prototype.replace` with a string replacement
  // ---------------------------------------------------------------------------

  /** The replacement text with its `$` patterns expanded, for a match with
      no capture groups: `$$` is `$`, `$&` the match, `` $` `` the text
      before it, `$'` the text after it; any other `$` stays. Text without
      a `$` is inserted verbatim, and `$&` alone gives the match back. */
  function Expand(repl: string, before: string, matched: string, after: string): (r: string)
    ensures NoDollar(repl) ==> r == repl
    ensures repl == "$&" ==> r == matched
    decreases |repl|
  {
    if |repl| == 0 then ""
    else if repl[0] == '$' && |repl| >= 2 && repl[1] == '$' then "$" + Expand(repl[2..], before, matched, after)
    else if repl[0] == '$' && |repl| >= 2 && repl[1] == '&' then matched + Expand(repl[2..], before, matched, after)
    else if repl[0] == '$' && |repl| >= 2 && repl[1] == '`' then before + Expand(repl[2..], before, matched, after)
    else if repl[0] == '$' && |repl| >= 2 && repl[1] == '\'' then after + Expand(repl[2..], before, matched, after)
    else
      assert [repl[0]] + repl[1..] == repl;
      [repl[0]] + Expand(repl[1..], before, matched, after)
  }

  predicate NoDollar(s: string) {
    forall k :: 0 <= k < |s| ==> s[k] != '$'
  }

  /** `s.replace(pat, repl)` for a string `pat`: the first occurrence is
      replaced by the expansion of `repl`; without a `$` in `repl` this is
      the literal replacement. */
  function ReplaceFirstAsWritten(s: string, pat: string, repl: string): (r: string)
    ensures !Contains(s, pat) ==> r == s
    ensures forall i :: FirstAt(s, pat, i) ==>
              r == s[..i] + Expand(repl, s[..i], pat, s[i + |pat|..]) + s[i + |pat|..]
    ensures NoDollar(repl) ==> r == ReplaceFirst(s, pat, repl)
  {
    match FindFirst(s, pat)
    case None => s
    case Some(i) =>
      forall j | FirstAt(s, pat, j) ensures j == i { FirstAtUnique(s, pat, i, j); }
      s[..i] + Expand(repl, s[..i], pat, s[i + |pat|..]) + s[i + |pat|..]
  }

  /** One iteration of the `forEach` as written. */
  function EntryAsWritten(url: string, e: (string, ParamValue)): (r: string)
    ensures !Contains(url, Placeholder(e.0)) ==> r == url
    ensures NoDollar(ValueString(e.1)) ==> r == Entry(url, e)
  {
    var pat := Placeholder(e.0);
    if Contains(url, pat) then ReplaceFirstAsWritten(url, pat, ValueString(e.1)) else url
  }

  function SubstituteAsWritten(url: string, ps: Params): string
    decreases |ps|
  {
    if |ps| == 0 then url else SubstituteAsWritten(EntryAsWritten(url, ps[0]), ps[1..])
  }

  /** `buildUrl(path, params)` as written: an absent `params` returns the
      path, and it agrees with the literal substitution whenever no value
      holds a `$`. */
  function BuildUrlAsWritten(path: string, params: Option<Params>): (r: string)
    ensures params.None? ==> r == path
    ensures params.Some? && (forall k :: 0 <= k < |params.value| ==> NoDollar(ValueString(params.value[k].1)))
            ==> r == BuildUrl(path, params)
  {
    match params
    case None => path
    case Some(ps) =>
      if forall k :: 0 <= k < |ps| ==> NoDollar(ValueString(ps[k].1)) then AsWrittenAgrees(path, ps); SubstituteAsWritten(path, ps)
      else SubstituteAsWritten(path, ps)
  }

  /** One key filling a template, as written: the value's `$` patterns are
      expanded against the text around the placeholder. */
  lemma SingleKeyAsWritten(pre: string, key: string, suf: string, v: ParamValue)
    requires NoColon(pre)
    ensures BuildUrlAsWritten(pre + Placeholder(key) + suf, Some([(key, v)]))
            == pre + Expand(ValueString(v), pre, Placeholder(key), suf) + suf
  {
    var s := pre + Placeholder(key) + suf;
    PlaceholderFirst(pre, key, suf);
    TemplateParts(pre, Placeholder(key), suf);
    assert Contains(s, Placeholder(key)) by { assert OccursAt(s, Placeholder(key), |pre|); }
    FirstAtUnique(s, Placeholder(key), FindFirst(s, Placeholder(key)).value, |pre|);
    var ps := [(key, v)];
    assert ps[1..] == [] && ps[0] == (key, v);
    assert SubstituteAsWritten(s, ps) == SubstituteAsWritten(EntryAsWritten(s, (key, v)), []);
  }

  /** A value `$&` puts the placeholder itself back: the URL keeps `:id`
      instead of carrying the value. */
  lemma DollarValueKeepsPlaceholder()
    ensures BuildUrlAsWritten("/api/conversations/:id", Some([("id", Str("$&"))])) == "/api/conversations/:id"
    ensures BuildUrl("/api/conversations/:id", Some([("id", Str("$&"))])) == "/api/conversations/$&"
  {
    DollarAsWritten();
    DollarLiteral();
  }

  /** `$&` expands to the matched text. */
  lemma ExpandMatched(before: string, matched: string, after: string)
    ensures Expand("$&", before, matched, after) == matched
  {
    assert "$&"[2..] == "";
    assert matched + "" == matched;
  }

  lemma DollarAsWritten()
    ensures BuildUrlAsWritten("/api/conversations/:id", Some([("id", Str("$&"))])) == "/api/conversations/:id"
  {
    var pre := "/api/conversations/";
    Templates();
    SingleKeyAsWritten(pre, "id", "", Str("$&"));
    ExpandMatched(pre, Placeholder("id"), "");
    EmptyRight(pre + Placeholder("id"));
  }

  lemma DollarLiteral()
    ensures BuildUrl("/api/conversations/:id", Some([("id", Str("$&"))])) == "/api/conversations/$&"
  {
    var pre := "/api/conversations/";
    Templates();
    SingleKey(pre, "id", "", Str("$&"));
    EmptyRight(pre + Placeholder("id"));
    EmptyRight(pre + "$&");
    assert pre + "$&" == "/api/conversations/$&";
  }

  /** As written and as intended agree when no value holds a `$`. */
  lemma {:induction false} AsWrittenAgrees(url: string, ps: Params)
    requires forall k :: 0 <= k < |ps| ==> NoDollar(ValueString(ps[k].1))
    ensures SubstituteAsWritten(url, ps) == Substitute(url, ps)
    decreases |ps|
  {
    if |ps| > 0 {
      AsWrittenAgrees(Entry(url, ps[0]), ps[1..]);
    }
  }

  /** Numeric values never hold a `$`, so every call with numeric ids
      behaves as intended. */
  lemma NumericIdsAgree(path: string, ps: Params)
    requires forall k :: 0 <= k < |ps| ==> ps[k].1.Num?
    ensures BuildUrlAsWritten(path, Some(ps)) == BuildUrl(path, Some(ps))
  {
    forall k | 0 <= k < |ps|
      ensures NoDollar(ValueString(ps[k].1))
    {
      var d := IntDecimal(ps[k].1.n);
      assert forall j :: 0 <= j < |d| ==> d[j] == '-' || '0' <= d[j] <= '9';
    }
    AsWrittenAgrees(path, ps);
  }
}
