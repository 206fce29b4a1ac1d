/**
 * The prompt optimizer of engine.py (`AdvancedPromptOptimizer`): an ordered
 * list of gated rewrite rules, a part-of-speech driven word filter, and the
 * final whitespace normalisation with before/after token counts.
 *
 * The libraries the optimizer loads or calls are parameters, held by the
 * `Optimizer` value: the spaCy pipeline, the tiktoken encoder (`None` when
 * encoding raises), lemminflect's noun lemmas and Python's `re.sub` for the
 * four word-level rule patterns.
 */
module Engine {
  import opened Whitespace

  datatype Option<T> = None | Some(value: T)

  /** spaCy's coarse part-of-speech tags (`token.pos_`), the Universal POS set. */
  datatype Pos =
    | ADJ | ADP | ADV | AUX | CCONJ | DET | INTJ | NOUN | NUM | PART | PRON
    | PROPN | PUNCT | SCONJ | SYM | VERB | X | SPACE

  /** A token of the spaCy document: its surface text and its `pos_` tag. */
  datatype Tagged = Tagged(text: string, pos: Pos)

  /**
   * An optimizer with its resources loaded.
   * - `nlp(text)`: the tokens of the spaCy document, in order;
   * - `encode(text)`: the cl100k_base token ids, or `None` if encoding raises;
   * - `nounLemmas(word)`: `getAllLemmas(word).get("NOUN")`, `None` when absent;
   * - `reSub(pattern, repl, text)`: `re.sub(pattern, repl, text, flags=re.IGNORECASE)`.
   */
  datatype Optimizer = Optimizer(
    nlp: string -> seq<Tagged>,
    encode: string -> Option<seq<int>>,
    nounLemmas: string -> Option<seq<string>>,
    reSub: (string, string, string) -> string)

  /** The five patterns of the rule list. */
  datatype Pattern = PleaseIntensifier | ProsCons | JsonFormat | ForExample | SpaceRun

  /** The regular expression each pattern stands for. */
  function Source(p: Pattern): string {
    match p
    case PleaseIntensifier => @"\b(please\s+)?(carefully|very|extremely)\b"
    case ProsCons => @"\b(advantages and disadvantages)\b"
    case JsonFormat => @"\boutput in JSON format\b"
    case ForExample => @"\b(for example|e\.g\.)\b"
    case SpaceRun => @"\s{2,}"
  }

  /** A rewrite rule: `(pattern, replacement, priority)`. */
  datatype Rule = Rule(pattern: Pattern, replacement: string, priority: real)

  /** The result of `optimize`: `(optimized, orig_tokens, new_tokens)`. */
  datatype Outcome = Outcome(optimized: string, origTokens: nat, newTokens: nat)

  const DefaultAggressiveness: real := 0.7

  /** The rule list of `_apply_rules`, in order. */
  const Rules: seq<Rule> := [
    Rule(PleaseIntensifier, "", 0.8),
    Rule(ProsCons, "pros/cons", 0.9),
    Rule(JsonFormat, "JSON:", 1.0),
    Rule(ForExample, "ex:", 0.9),
    Rule(SpaceRun, " ", 0.0)
  ]

  /** The tags `_linguistic_optimize` always keeps. */
  predicate IsContent(pos: Pos) {
    pos == NOUN || pos == PROPN || pos == NUM
  }

  // ---------------------------------------------------------------------
  // Rule rewriter (`_apply_rules`)

  /** The gate of `_apply_rules`. */
  predicate Fires(rule: Rule, aggressiveness: real) {
    rule.priority >= aggressiveness
  }

  /** One substitution; the whitespace-run rule is modelled exactly, the others through `re`. */
  function Substitute(opt: Optimizer, rule: Rule, text: string): string {
    if rule.pattern == SpaceRun then SubLongRuns(text, rule.replacement)
    else opt.reSub(Source(rule.pattern), rule.replacement, text)
  }

  /** The text after the gated loop has gone over `rules`, each rule seeing the previous output. */
  function Chain(opt: Optimizer, rules: seq<Rule>, aggressiveness: real, text: string): string {
    if rules == [] then text
    else
      var before := Chain(opt, rules[..|rules| - 1], aggressiveness, text);
      var last := rules[|rules| - 1];
      if Fires(last, aggressiveness) then Substitute(opt, last, before) else before
  }

  /** `rules` applied unconditionally, in order. */
  function ApplyAll(opt: Optimizer, rules: seq<Rule>, text: string): string {
    if rules == [] then text
    else Substitute(opt, rules[|rules| - 1], ApplyAll(opt, rules[..|rules| - 1], text))
  }

  /** The rules that pass the gate, in list order. */
  function Fired(rules: seq<Rule>, aggressiveness: real): seq<Rule> {
    if rules == [] then []
    else
      var init := rules[..|rules| - 1];
      var last := rules[|rules| - 1];
      if Fires(last, aggressiveness) then Fired(init, aggressiveness) + [last]
      else Fired(init, aggressiveness)
  }

  /** A rule is in the fired list exactly when it is in the list and passes the gate. */
  lemma {:induction false} FiredExactly(rules: seq<Rule>, aggressiveness: real)
    ensures |Fired(rules, aggressiveness)| <= |rules|
    ensures forall r :: r in Fired(rules, aggressiveness) <==> r in rules && Fires(r, aggressiveness)
  {
    if rules != [] {
      var init := rules[..|rules| - 1];
      var last := rules[|rules| - 1];
      assert rules == init + [last];
      FiredExactly(init, aggressiveness);
    }
  }

  function RulesApplied(opt: Optimizer, text: string, aggressiveness: real): string {
    Chain(opt, Rules, aggressiveness, text)
  }

  /** `_apply_rules`: the rule list in order, each rule rewriting the text when it passes the gate. */
  method ApplyRules(opt: Optimizer, text: string, aggressiveness: real) returns (r: string)
    ensures r == RulesApplied(opt, text, aggressiveness)
  {
    r := text;
    for i := 0 to |Rules|
      invariant r == Chain(opt, Rules[..i], aggressiveness, text)
    {
      var rule := Rules[i];
      if rule.priority >= aggressiveness {
        r := Substitute(opt, rule, r);
      }
      assert Rules[..i + 1][..i] == Rules[..i];
    }
    assert Rules[..|Rules|] == Rules;
  }

  /** The gated loop is the same as applying exactly the rules that pass the gate, in order. */
  lemma {:induction false} ChainAppliesFired(opt: Optimizer, rules: seq<Rule>, aggressiveness: real, text: string)
    ensures Chain(opt, rules, aggressiveness, text) == ApplyAll(opt, Fired(rules, aggressiveness), text)
  {
    if rules != [] {
      var init := rules[..|rules| - 1];
      var last := rules[|rules| - 1];
      ChainAppliesFired(opt, init, aggressiveness, text);
      if Fires(last, aggressiveness) {
        var f := Fired(init, aggressiveness) + [last];
        assert f[..|f| - 1] == Fired(init, aggressiveness);
      }
    }
  }

  /** What one rule adds to the fired list. */
  function Gate(rule: Rule, aggressiveness: real): seq<Rule> {
    if Fires(rule, aggressiveness) then [rule] else []
  }

  lemma FiredPrefix(rules: seq<Rule>, k: nat, aggressiveness: real)
    requires k < |rules|
    ensures Fired(rules[..k + 1], aggressiveness) == Fired(rules[..k], aggressiveness) + Gate(rules[k], aggressiveness)
  {
    assert rules[..k + 1][..k] == rules[..k];
  }

  /** The rules that fire from a list of five, written out. */
  lemma FiredOfFive(rules: seq<Rule>, aggressiveness: real)
    requires |rules| == 5
    ensures Fired(rules, aggressiveness) ==
      Gate(rules[0], aggressiveness) + Gate(rules[1], aggressiveness) + Gate(rules[2], aggressiveness)
      + Gate(rules[3], aggressiveness) + Gate(rules[4], aggressiveness)
  {
    var a := aggressiveness;
    assert rules[..0] == [];
    FiredPrefix(rules, 0, a);
    FiredPrefix(rules, 1, a);
    FiredPrefix(rules, 2, a);
    FiredPrefix(rules, 3, a);
    FiredPrefix(rules, 4, a);
    assert rules[..5] == rules;
  }

  /** Which rules fire at each aggressiveness: higher values fire fewer rules. */
  lemma FiredBands(aggressiveness: real)
    ensures aggressiveness > 1.0 ==> Fired(Rules, aggressiveness) == []
    ensures 0.9 < aggressiveness <= 1.0 ==> Fired(Rules, aggressiveness) == [Rules[2]]
    ensures 0.8 < aggressiveness <= 0.9 ==> Fired(Rules, aggressiveness) == Rules[1..4]
    ensures 0.0 < aggressiveness <= 0.8 ==> Fired(Rules, aggressiveness) == Rules[..4]
    ensures aggressiveness <= 0.0 ==> Fired(Rules, aggressiveness) == Rules
  {
    var a := aggressiveness;
    FiredOfFive(Rules, a);
    var r0, r1, r2, r3, r4 := Rules[0], Rules[1], Rules[2], Rules[3], Rules[4];
    if a > 1.0 {
    } else if a > 0.9 {
      assert Fired(Rules, a) == [] + [] + [r2] + [] + [];
    } else if a > 0.8 {
      assert Fired(Rules, a) == [] + [r1] + [r2] + [r3] + [];
      assert Rules[1..4] == [r1, r2, r3];
    } else if a > 0.0 {
      assert Fired(Rules, a) == [r0] + [r1] + [r2] + [r3] + [];
      assert Rules[..4] == [r0, r1, r2, r3];
    } else {
      assert Fired(Rules, a) == [r0] + [r1] + [r2] + [r3] + [r4];
    }
  }

  /** The rewriter's effect at each aggressiveness. */
  lemma {:induction false} RulesAppliedBands(opt: Optimizer, text: string, aggressiveness: real)
    ensures aggressiveness > 1.0 ==> RulesApplied(opt, text, aggressiveness) == text
    ensures 0.9 < aggressiveness <= 1.0 ==>
      RulesApplied(opt, text, aggressiveness) == opt.reSub(Source(JsonFormat), "JSON:", text)
    ensures aggressiveness <= 0.0 ==> RulesApplied(opt, text, aggressiveness) == ApplyAll(opt, Rules, text)
    ensures (Rules[4] in Fired(Rules, aggressiveness)) <==> aggressiveness <= 0.0
  {
    ChainAppliesFired(opt, Rules, aggressiveness, text);
    FiredBands(aggressiveness);
    FiredExactly(Rules, aggressiveness);
    if 0.9 < aggressiveness <= 1.0 {
      assert [Rules[2]][..0] == [];
    }
  }

  /** When the whitespace-run rule fires (it is last), the rewritten text has no adjacent whitespace. */
  lemma {:induction false} RulesAppliedSingleSpaced(opt: Optimizer, text: string, aggressiveness: real)
    requires aggressiveness <= 0.0
    ensures SingleSpaced(RulesApplied(opt, text, aggressiveness))
  {
    RulesAppliedBands(opt, text, aggressiveness);
    assert Rules[..5][..4] == Rules[..4];
    SubLongRunsShape(ApplyAll(opt, Rules[..4], text));
  }

  /** At the default aggressiveness the four word rules fire and the whitespace rule does not. */
  lemma {:induction false} DefaultFiresWordRules()
    ensures Fired(Rules, DefaultAggressiveness) == Rules[..4]
    ensures Rules[4] !in Fired(Rules, DefaultAggressiveness)
  {
    FiredBands(DefaultAggressiveness);
  }

  /**
   * When every word-level rule of `rules` rewrites "" to "" (its pattern
   * cannot match the empty string), the rewriter leaves "" as it is; the
   * whitespace-run rule needs no such premise.
   */
  lemma {:induction false} ChainKeepsEmpty(opt: Optimizer, rules: seq<Rule>, aggressiveness: real)
    requires forall i :: 0 <= i < |rules| && rules[i].pattern != SpaceRun ==>
      opt.reSub(Source(rules[i].pattern), rules[i].replacement, []) == []
    ensures Chain(opt, rules, aggressiveness, []) == []
  {
    if rules != [] {
      var init := rules[..|rules| - 1];
      assert forall i :: 0 <= i < |init| ==> init[i] == rules[i];
      ChainKeepsEmpty(opt, init, aggressiveness);
    }
  }

  // ---------------------------------------------------------------------
  // Linguistic reducer (`_linguistic_optimize`)

  /** What one token contributes to the output: a word, or nothing. */
  function Decide(opt: Optimizer, tok: Tagged, aggressiveness: real): Option<string> {
    if tok.pos == VERB && aggressiveness >= 0.8 then
      var nounForms := opt.nounLemmas(tok.text);
      if nounForms.Some? && |nounForms.value| > 0 then Some(nounForms.value[0]) else None
    else if IsContent(tok.pos) then Some(tok.text)
    else if aggressiveness < 0.7 then Some(tok.text)
    else None
  }

  /**
   * The decision table by aggressiveness band: content words always kept;
   * below 0.7 everything kept; from 0.8 a verb becomes one of its noun forms
   * or is dropped when it has none; between 0.7 and 0.8 verbs and all other
   * non-content tokens are dropped.
   */
  lemma DecideTable(opt: Optimizer, tok: Tagged, aggressiveness: real)
    ensures IsContent(tok.pos) ==> Decide(opt, tok, aggressiveness) == Some(tok.text)
    ensures aggressiveness < 0.7 ==> Decide(opt, tok, aggressiveness) == Some(tok.text)
    ensures tok.pos == VERB && aggressiveness >= 0.8 ==>
      (Decide(opt, tok, aggressiveness).Some? <==>
        opt.nounLemmas(tok.text).Some? && opt.nounLemmas(tok.text).value != []) &&
      (Decide(opt, tok, aggressiveness).Some? ==>
        Decide(opt, tok, aggressiveness).value in opt.nounLemmas(tok.text).value)
    ensures aggressiveness >= 0.7 && !IsContent(tok.pos) && !(tok.pos == VERB && aggressiveness >= 0.8) ==>
      Decide(opt, tok, aggressiveness) == None
  {
  }

  function Contribution(w: Option<string>): seq<string> {
    match w
    case Some(word) => [word]
    case None => []
  }

  /** The list `optimized` after the loop has gone over `doc`. */
  function Emit(opt: Optimizer, doc: seq<Tagged>, aggressiveness: real): (out: seq<string>)
    ensures |out| <= |doc|
  {
    if doc == [] then []
    else Contribution(Decide(opt, doc[0], aggressiveness)) + Emit(opt, doc[1..], aggressiveness)
  }

  /** The reducer's output word list splits along the document: it never reorders. */
  lemma {:induction false} EmitAppend(opt: Optimizer, d1: seq<Tagged>, d2: seq<Tagged>, aggressiveness: real)
    ensures Emit(opt, d1 + d2, aggressiveness) == Emit(opt, d1, aggressiveness) + Emit(opt, d2, aggressiveness)
  {
    if d1 == [] {
      assert d1 + d2 == d2;
    } else {
      assert (d1 + d2)[1..] == d1[1..] + d2;
      EmitAppend(opt, d1[1..], d2, aggressiveness);
    }
  }

  /** One more step of the loop of `_linguistic_optimize`. */
  lemma EmitStep(opt: Optimizer, doc: seq<Tagged>, i: nat, aggressiveness: real)
    requires i < |doc|
    ensures Emit(opt, doc[..i + 1], aggressiveness)
      == Emit(opt, doc[..i], aggressiveness) + Contribution(Decide(opt, doc[i], aggressiveness))
  {
    assert doc[..i + 1] == doc[..i] + [doc[i]];
    EmitAppend(opt, doc[..i], [doc[i]], aggressiveness);
  }

  /** The positions, counted from `base`, of the tokens of `doc` that contribute a word. */
  function OriginsFrom(opt: Optimizer, doc: seq<Tagged>, aggressiveness: real, base: nat): seq<nat>
    decreases |doc|
  {
    if doc == [] then []
    else
      var here: seq<nat> := if Decide(opt, doc[0], aggressiveness).Some? then [base] else [];
      here + OriginsFrom(opt, doc[1..], aggressiveness, base + 1)
  }

  /** The positions, in `doc`, of the tokens that contribute a word. */
  function Origins(opt: Optimizer, doc: seq<Tagged>, aggressiveness: real): seq<nat> {
    OriginsFrom(opt, doc, aggressiveness, 0)
  }

  lemma {:induction false} OriginsLength(opt: Optimizer, doc: seq<Tagged>, aggressiveness: real, base: nat)
    ensures |OriginsFrom(opt, doc, aggressiveness, base)| == |Emit(opt, doc, aggressiveness)|
    decreases |doc|
  {
    if doc != [] {
      OriginsLength(opt, doc[1..], aggressiveness, base + 1);
    }
  }

  /** Each origin is the position of a token of `doc`. */
  lemma {:induction false} OriginsBounded(opt: Optimizer, doc: seq<Tagged>, aggressiveness: real, base: nat, k: nat)
    requires k < |OriginsFrom(opt, doc, aggressiveness, base)|
    ensures base <= OriginsFrom(opt, doc, aggressiveness, base)[k] < base + |doc|
    decreases |doc|
  {
    var a := aggressiveness;
    var idx := OriginsFrom(opt, doc, a, base);
    var rest := OriginsFrom(opt, doc[1..], a, base + 1);
    if Decide(opt, doc[0], a).Some? {
      assert idx == [base] + rest;
      if k > 0 {
        OriginsBounded(opt, doc[1..], a, base + 1, k - 1);
      }
    } else {
      assert idx == rest;
      OriginsBounded(opt, doc[1..], a, base + 1, k);
    }
  }

  /** How the k-th origin and the k-th output word of a non-empty document relate to its tail's. */
  lemma OriginsUnfold(opt: Optimizer, doc: seq<Tagged>, aggressiveness: real, base: nat, k: nat)
    requires doc != [] && k < |OriginsFrom(opt, doc, aggressiveness, base)|
    ensures k < |Emit(opt, doc, aggressiveness)|
    ensures Decide(opt, doc[0], aggressiveness).Some? && k == 0 ==>
      OriginsFrom(opt, doc, aggressiveness, base)[k] == base &&
      Emit(opt, doc, aggressiveness)[k] == Decide(opt, doc[0], aggressiveness).value
    ensures Decide(opt, doc[0], aggressiveness).Some? && k > 0 ==>
      k - 1 < |OriginsFrom(opt, doc[1..], aggressiveness, base + 1)| &&
      OriginsFrom(opt, doc, aggressiveness, base)[k] == OriginsFrom(opt, doc[1..], aggressiveness, base + 1)[k - 1] &&
      Emit(opt, doc, aggressiveness)[k] == Emit(opt, doc[1..], aggressiveness)[k - 1]
    ensures Decide(opt, doc[0], aggressiveness).None? ==>
      k < |OriginsFrom(opt, doc[1..], aggressiveness, base + 1)| &&
      OriginsFrom(opt, doc, aggressiveness, base)[k] == OriginsFrom(opt, doc[1..], aggressiveness, base + 1)[k] &&
      Emit(opt, doc, aggressiveness)[k] == Emit(opt, doc[1..], aggressiveness)[k]
  {
    var a := aggressiveness;
    var d := Decide(opt, doc[0], a);
    OriginsLength(opt, doc, a, base);
    if d.Some? {
      assert OriginsFrom(opt, doc, a, base) == [base] + OriginsFrom(opt, doc[1..], a, base + 1);
      assert Emit(opt, doc, a) == [d.value] + Emit(opt, doc[1..], a);
    } else {
      assert OriginsFrom(opt, doc, a, base) == OriginsFrom(opt, doc[1..], a, base + 1);
      assert Emit(opt, doc, a) == Emit(opt, doc[1..], a);
    }
  }

  /** The k-th output word comes from the token at the k-th origin. */
  lemma {:induction false} OriginsAt(opt: Optimizer, doc: seq<Tagged>, aggressiveness: real, base: nat, k: nat)
    requires k < |OriginsFrom(opt, doc, aggressiveness, base)|
    ensures k < |Emit(opt, doc, aggressiveness)|
    ensures base <= OriginsFrom(opt, doc, aggressiveness, base)[k] < base + |doc|
    ensures Decide(opt, doc[OriginsFrom(opt, doc, aggressiveness, base)[k] - base], aggressiveness)
      == Some(Emit(opt, doc, aggressiveness)[k])
    decreases |doc|
  {
    var a := aggressiveness;
    OriginsBounded(opt, doc, a, base, k);
    OriginsUnfold(opt, doc, a, base, k);
    var j := OriginsFrom(opt, doc, a, base)[k] - base;
    if Decide(opt, doc[0], a).Some? && k == 0 {
    } else {
      var k' := if Decide(opt, doc[0], a).Some? then k - 1 else k;
      OriginsAt(opt, doc[1..], a, base + 1, k');
      assert doc[1..][j - 1] == doc[j];
    }
  }

  /** The origins strictly increase: output order is input order. */
  lemma {:induction false} OriginsIncrease(opt: Optimizer, doc: seq<Tagged>, aggressiveness: real, base: nat, k: nat, l: nat)
    requires k < l < |OriginsFrom(opt, doc, aggressiveness, base)|
    ensures OriginsFrom(opt, doc, aggressiveness, base)[k] < OriginsFrom(opt, doc, aggressiveness, base)[l]
    decreases |doc|
  {
    var a := aggressiveness;
    var idx := OriginsFrom(opt, doc, a, base);
    var rest := OriginsFrom(opt, doc[1..], a, base + 1);
    if Decide(opt, doc[0], a).Some? {
      assert idx == [base] + rest;
      OriginsBounded(opt, doc[1..], a, base + 1, l - 1);
      if k > 0 {
        OriginsIncrease(opt, doc[1..], a, base + 1, k - 1, l - 1);
      }
    } else {
      assert idx == rest;
      OriginsIncrease(opt, doc[1..], a, base + 1, k, l);
    }
  }

  /** Every token that contributes a word is among the origins. */
  lemma {:induction false} OriginsComplete(opt: Optimizer, doc: seq<Tagged>, aggressiveness: real, base: nat, i: nat)
    requires i < |doc| && Decide(opt, doc[i], aggressiveness).Some?
    ensures base + i in OriginsFrom(opt, doc, aggressiveness, base)
    decreases |doc|
  {
    var a := aggressiveness;
    var here: seq<nat> := if Decide(opt, doc[0], a).Some? then [base] else [];
    var rest := OriginsFrom(opt, doc[1..], a, base + 1);
    assert OriginsFrom(opt, doc, a, base) == here + rest;
    if i > 0 {
      assert doc[1..][i - 1] == doc[i];
      OriginsComplete(opt, doc[1..], a, base + 1, i - 1);
      assert base + i in rest;
    }
  }

  /**
   * The reducer is an order-preserving filter-map: one output word per
   * contributing token, the k-th word coming from the k-th contributing
   * position, the positions strictly increasing, and every token that
   * contributes listed.
   */
  lemma OriginsTrace(opt: Optimizer, doc: seq<Tagged>, aggressiveness: real)
    ensures |Origins(opt, doc, aggressiveness)| == |Emit(opt, doc, aggressiveness)|
    ensures forall k :: 0 <= k < |Origins(opt, doc, aggressiveness)| ==>
      Origins(opt, doc, aggressiveness)[k] < |doc| &&
      Decide(opt, doc[Origins(opt, doc, aggressiveness)[k]], aggressiveness) == Some(Emit(opt, doc, aggressiveness)[k])
    ensures forall k, l :: 0 <= k < l < |Origins(opt, doc, aggressiveness)| ==>
      Origins(opt, doc, aggressiveness)[k] < Origins(opt, doc, aggressiveness)[l]
    ensures forall i :: 0 <= i < |doc| && Decide(opt, doc[i], aggressiveness).Some? ==>
      i in Origins(opt, doc, aggressiveness)
  {
    var idx := Origins(opt, doc, aggressiveness);
    OriginsLength(opt, doc, aggressiveness, 0);
    forall k | 0 <= k < |idx|
      ensures idx[k] < |doc| && Decide(opt, doc[idx[k]], aggressiveness) == Some(Emit(opt, doc, aggressiveness)[k])
    {
      OriginsBounded(opt, doc, aggressiveness, 0, k);
      OriginsAt(opt, doc, aggressiveness, 0, k);
    }
    forall k, l | 0 <= k < l < |idx|
      ensures idx[k] < idx[l]
    {
      OriginsIncrease(opt, doc, aggressiveness, 0, k, l);
    }
    forall i | 0 <= i < |doc| && Decide(opt, doc[i], aggressiveness).Some?
      ensures i in idx
    {
      OriginsComplete(opt, doc, aggressiveness, 0, i);
    }
  }

  /** Below 0.7 every token is kept verbatim. */
  lemma {:induction false} LowAggressivenessKeepsAll(opt: Optimizer, doc: seq<Tagged>, aggressiveness: real)
    requires aggressiveness < 0.7
    ensures |Emit(opt, doc, aggressiveness)| == |doc|
    ensures forall i :: 0 <= i < |doc| ==> Emit(opt, doc, aggressiveness)[i] == doc[i].text
  {
    if doc != [] {
      DecideTable(opt, doc[0], aggressiveness);
      LowAggressivenessKeepsAll(opt, doc[1..], aggressiveness);
    }
  }

  /** Nouns, proper nouns and numbers are kept verbatim at every aggressiveness. */
  lemma {:induction false} ContentWordsKept(opt: Optimizer, doc: seq<Tagged>, aggressiveness: real)
    requires forall i :: 0 <= i < |doc| ==> IsContent(doc[i].pos)
    ensures Emit(opt, doc, aggressiveness) == seq(|doc|, i requires 0 <= i < |doc| => doc[i].text)
  {
    if doc != [] {
      DecideTable(opt, doc[0], aggressiveness);
      ContentWordsKept(opt, doc[1..], aggressiveness);
    }
  }

  /**
   * In any document, every noun, proper noun and number appears verbatim in
   * the output, at the output position of its origin.
   */
  lemma ContentTokensKept(opt: Optimizer, doc: seq<Tagged>, aggressiveness: real)
    ensures forall i :: 0 <= i < |doc| && IsContent(doc[i].pos) ==>
      exists k :: 0 <= k < |Origins(opt, doc, aggressiveness)| && k < |Emit(opt, doc, aggressiveness)| &&
        Origins(opt, doc, aggressiveness)[k] == i && Emit(opt, doc, aggressiveness)[k] == doc[i].text
  {
    var idx := Origins(opt, doc, aggressiveness);
    OriginsTrace(opt, doc, aggressiveness);
    forall i | 0 <= i < |doc| && IsContent(doc[i].pos)
      ensures exists k ::
        0 <= k < |idx| && k < |Emit(opt, doc, aggressiveness)| && idx[k] == i && Emit(opt, doc, aggressiveness)[k] == doc[i].text
    {
      DecideTable(opt, doc[i], aggressiveness);
      var k :| 0 <= k < |idx| && idx[k] == i;
      assert Decide(opt, doc[idx[k]], aggressiveness) == Some(Emit(opt, doc, aggressiveness)[k]);
    }
  }

  /** `_linguistic_optimize` as a value. */
  function Reduced(opt: Optimizer, text: string, aggressiveness: real): string {
    if Strip(text) == [] then text
    else Join(Emit(opt, opt.nlp(text), aggressiveness), " ")
  }

  /**
   * `_linguistic_optimize`: blank text is returned untouched; otherwise each
   * token of the document is kept, dropped or replaced by a noun form, and
   * the kept words are joined with single spaces.
   */
  method LinguisticOptimize(opt: Optimizer, text: string, aggressiveness: real) returns (r: string)
    ensures AllSpace(text) ==> r == text
    ensures r == Reduced(opt, text, aggressiveness)
  {
    StripDrops(text);
    if Strip(text) == [] {
      return text;
    }
    var doc := opt.nlp(text);
    var optimized: seq<string> := [];
    for i := 0 to |doc|
      invariant optimized == Emit(opt, doc[..i], aggressiveness)
    {
      var token := doc[i];
      var word: Option<string> := None;
      if token.pos == VERB && aggressiveness >= 0.8 {
        var nounForms := opt.nounLemmas(token.text);
        if nounForms.Some? && |nounForms.value| > 0 {
          word := Some(nounForms.value[0]);
        }
      } else if IsContent(token.pos) {
        word := Some(token.text);
      } else if aggressiveness < 0.7 {
        word := Some(token.text);
      }
      if word.Some? {
        optimized := optimized + [word.value];
      }
      assert word == Decide(opt, token, aggressiveness);
      EmitStep(opt, doc, i, aggressiveness);
    }
    assert doc[..|doc|] == doc;
    r := Join(optimized, " ");
  }

  /** Blank text comes back unchanged, whatever the tagger would have said. */
  lemma {:induction false} BlankTextUntouched(opt1: Optimizer, opt2: Optimizer, text: string, aggressiveness: real)
    requires AllSpace(text)
    ensures Reduced(opt1, text, aggressiveness) == text
    ensures Reduced(opt2, text, aggressiveness) == text
  {
    StripDrops(text);
  }

  /** The reducer's output is its words joined by single spaces: splitting it gives them back. */
  lemma {:induction false} ReducedSplitsBack(opt: Optimizer, text: string, aggressiveness: real)
    requires !AllSpace(text)
    requires forall k :: 0 <= k < |Emit(opt, opt.nlp(text), aggressiveness)| ==>
      IsWord(Emit(opt, opt.nlp(text), aggressiveness)[k])
    ensures Words(Reduced(opt, text, aggressiveness)) == Emit(opt, opt.nlp(text), aggressiveness)
    ensures |Words(Reduced(opt, text, aggressiveness))| <= |opt.nlp(text)|
  {
    StripDrops(text);
    JoinSplitsBack(Emit(opt, opt.nlp(text), aggressiveness));
    ReducedWordCount(opt, text, aggressiveness);
  }

  /**
   * When no emitted word splits into more than one piece (a whitespace
   * token, kept below 0.7, splits into none), the reducer's output has at
   * most as many `split()` words as the document has tokens.
   */
  lemma {:induction false} ReducedWordCount(opt: Optimizer, text: string, aggressiveness: real)
    requires forall k :: 0 <= k < |Emit(opt, opt.nlp(text), aggressiveness)| ==>
      |Words(Emit(opt, opt.nlp(text), aggressiveness)[k])| <= 1
    ensures |Words(Reduced(opt, text, aggressiveness))| <= |opt.nlp(text)|
  {
    StripDrops(text);
    if AllSpace(text) {
      WordsOfSpace(text);
    } else {
      var ws := Emit(opt, opt.nlp(text), aggressiveness);
      WordsOfJoin(ws);
      WordsOfAllCount(ws);
    }
  }

  // ---------------------------------------------------------------------
  // Orchestration (`optimize`)

  /** The try/except of `optimize`: both counts from the encoder, or both from `split()`. */
  function TokenCounts(opt: Optimizer, prompt: string, optimized: string): (nat, nat) {
    match (opt.encode(prompt), opt.encode(optimized))
    case (Some(o), Some(n)) => (|o|, |n|)
    case _ => (|Words(prompt)|, |Words(optimized)|)
  }

  /**
   * `optimize(prompt, aggressiveness)`: the rules, then the reducer, then
   * whitespace normalisation, then the two token counts.
   */
  function Optimize(opt: Optimizer, prompt: string, aggressiveness: real): Outcome {
    var optimized := Normalize(Reduced(opt, RulesApplied(opt, prompt, aggressiveness), aggressiveness));
    var counts := TokenCounts(opt, prompt, optimized);
    Outcome(optimized, counts.0, counts.1)
  }

  /**
   * The optimized text is normal (single plain spaces, nothing at either
   * end), normalising it again changes nothing, and it is exactly the words
   * of the reducer's output joined by single spaces.
   */
  lemma OptimizeOutput(opt: Optimizer, prompt: string, aggressiveness: real)
    ensures IsNormal(Optimize(opt, prompt, aggressiveness).optimized)
    ensures Normalize(Optimize(opt, prompt, aggressiveness).optimized) == Optimize(opt, prompt, aggressiveness).optimized
    ensures Optimize(opt, prompt, aggressiveness).optimized
      == Join(Words(Reduced(opt, RulesApplied(opt, prompt, aggressiveness), aggressiveness)), " ")
    ensures Words(Optimize(opt, prompt, aggressiveness).optimized)
      == Words(Reduced(opt, RulesApplied(opt, prompt, aggressiveness), aggressiveness))
  {
    NormalizeFacts(Reduced(opt, RulesApplied(opt, prompt, aggressiveness), aggressiveness));
  }

  /**
   * Both counts come from the encoder when it succeeds on both texts;
   * otherwise both are whitespace word counts, and normalisation does not
   * change the count of the reducer's output.
   */
  lemma OptimizeCounts(opt: Optimizer, prompt: string, aggressiveness: real)
    ensures opt.encode(prompt).Some? && opt.encode(Optimize(opt, prompt, aggressiveness).optimized).Some? ==>
      Optimize(opt, prompt, aggressiveness).origTokens == |opt.encode(prompt).value| &&
      Optimize(opt, prompt, aggressiveness).newTokens == |opt.encode(Optimize(opt, prompt, aggressiveness).optimized).value|
    ensures opt.encode(prompt).None? || opt.encode(Optimize(opt, prompt, aggressiveness).optimized).None? ==>
      Optimize(opt, prompt, aggressiveness).origTokens == |Words(prompt)| &&
      Optimize(opt, prompt, aggressiveness).newTokens
        == |Words(Reduced(opt, RulesApplied(opt, prompt, aggressiveness), aggressiveness))|
  {
    WordsOfNormalize(Reduced(opt, RulesApplied(opt, prompt, aggressiveness), aggressiveness));
  }

  /**
   * An empty prompt gives empty text and two equal counts, both 0 when
   * encoding fails, provided the four word-level patterns do not match the
   * empty string (none of them can).
   */
  lemma {:induction false} EmptyPrompt(opt: Optimizer, aggressiveness: real)
    requires forall r :: r in Rules[..4] ==> opt.reSub(Source(r.pattern), r.replacement, []) == []
    ensures Optimize(opt, [], aggressiveness).optimized == []
    ensures Optimize(opt, [], aggressiveness).origTokens == Optimize(opt, [], aggressiveness).newTokens
    ensures opt.encode([]).None? ==> Optimize(opt, [], aggressiveness).newTokens == 0
  {
    assert forall i :: 0 <= i < 4 ==> Rules[i] in Rules[..4];
    ChainKeepsEmpty(opt, Rules, aggressiveness);
    assert Normalize([]) == [];
  }

  /**
   * Under the fallback count, when no emitted word splits into more than one
   * piece (whitespace tokens split into none), the new count is at most the
   * number of tagged tokens.
   */
  lemma {:induction false} FallbackCountBounded(opt: Optimizer, prompt: string, aggressiveness: real)
    requires opt.encode(prompt).None? || opt.encode(Optimize(opt, prompt, aggressiveness).optimized).None?
    requires forall k :: 0 <= k < |Emit(opt, opt.nlp(RulesApplied(opt, prompt, aggressiveness)), aggressiveness)| ==>
      |Words(Emit(opt, opt.nlp(RulesApplied(opt, prompt, aggressiveness)), aggressiveness)[k])| <= 1
    ensures Optimize(opt, prompt, aggressiveness).newTokens <= |opt.nlp(RulesApplied(opt, prompt, aggressiveness))|
  {
    OptimizeCounts(opt, prompt, aggressiveness);
    ReducedWordCount(opt, RulesApplied(opt, prompt, aggressiveness), aggressiveness);
  }
}
