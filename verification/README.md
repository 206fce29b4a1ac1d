# Prompt optimizer model

A Dafny model of `AdvancedPromptOptimizer` from `engine.py`, the core of a
prompt-shortening tool. `optimize(prompt, aggressiveness)` works in three
stages and then counts tokens:

1. **Rewrite rules** (`_apply_rules`). Five regular-expression rules run in
   list order. A rule rewrites the text only when its priority is at least
   the aggressiveness. The fifth rule turns every run of two or more
   whitespace characters into a single space.
2. **Linguistic reducer** (`_linguistic_optimize`). Blank text comes back as
   it is. Otherwise spaCy tags each token, and the tag decides what happens:
   - nouns, proper nouns and numbers are kept;
   - from 0.8, a verb is replaced by its first noun form, or dropped when it
     has none;
   - below 0.7, every other token is kept;
   - the kept words are joined with single spaces.
3. **Normalisation.** `re.sub(r"\s+", " ", ...).strip()`.
4. **Token counts.** The tiktoken encoder counts the prompt and the
   optimized text. If encoding raises, both counts fall back to
   `len(text.split())`.

The project has two modules:
- **`Whitespace`** (`whitespace.dfy`) models Python's whitespace operations
  exactly: `str.isspace`, which is also the `\s` class of a `str` pattern;
  `strip`/`lstrip`/`rstrip`; `split()` with no argument; `join`; and the two
  whitespace substitutions.
- **`Engine`** (`engine.dfy`) models the optimizer.

The libraries the optimizer calls are fields of an `Optimizer` value:
- the spaCy pipeline, a function from text to tagged tokens;
- the tiktoken encoder, a function returning `None` where encoding raises;
- lemminflect's noun lemmas;
- `re.sub` for the four word-level patterns.

Both loops are methods proved equal to a specification function:
- `ApplyRules` against `RulesApplied`;
- `LinguisticOptimize` against `Reduced`.

The lemmas state what those functions guarantee.

## Model

| member | source | states |
|---|---|---|
| Engine.Substitute | engine.py:38 | one `re.sub` of a rule: the whitespace-run rule is `Whitespace.SubLongRuns`, the word rules go through `reSub` with the rule's pattern text and replacement |
| Engine.Chain | engine.py:36-38 | the gated left-to-right fold: the last rule rewrites the output of the earlier ones exactly when its priority is at least the aggressiveness; its properties are in `ChainAppliesFired` and `RulesAppliedBands` |
| Engine.ApplyRules | engine.py:28-39 | the loop's result is the gated chain of the five rules in list order, each seeing the previous rule's output |
| Engine.FiredExactly | engine.py:36-37 | a rule takes part exactly when it is in the list and its priority is at least the aggressiveness; no more rules fire than are listed |
| Engine.ChainAppliesFired | engine.py:36-38 | the gated loop equals applying, unconditionally and in order, exactly the rules that pass the gate |
| Engine.FiredBands | engine.py:29-37 | which rules fire in each aggressiveness band: none above 1.0; only the JSON rule in (0.9, 1.0]; rules 2–4 in (0.8, 0.9]; rules 1–4 in (0, 0.8]; all five at 0 or below |
| Engine.RulesAppliedBands | engine.py:29-38 | above 1.0 the text is unchanged; in (0.9, 1.0] it is the JSON substitution alone; at or below 0 it is all five rules in order; the whitespace rule fires exactly when aggressiveness <= 0 |
| Engine.RulesAppliedSingleSpaced | engine.py:34-38 | when the whitespace rule fires, the rewritten text has no two adjacent whitespace characters |
| Engine.DefaultFiresWordRules | engine.py:12 | at the default 0.7 the four word rules fire and the whitespace rule does not |
| Engine.ChainKeepsEmpty | engine.py:36-38 | when every word-level rule maps "" to "", the rewriter maps "" to ""; the whitespace-run rule needs no premise |
| Engine.Decide | engine.py:47-54 | one token's contribution: a noun form for a verb from 0.8 (none when it has none), the text of a content token, the text of any other token below 0.7, otherwise nothing; its table is `DecideTable` |
| Engine.DecideTable | engine.py:47-54 | each token's fate by band: content tags are always kept verbatim; below 0.7 everything is kept; from 0.8 a verb yields a word exactly when it has noun forms, and that word is one of them; otherwise it is dropped |
| Engine.Emit | engine.py:45-54 | the reducer emits at most one word per token |
| Engine.EmitAppend | engine.py:46-54 | the word list of a concatenated document is the concatenation of the word lists: the loop is a left-to-right map |
| Engine.LinguisticOptimize | engine.py:41-55 | blank text is returned unchanged; otherwise the result is the per-token decisions, in document order, joined by single spaces |
| Engine.OriginsTrace | engine.py:45-54 | the output is an order-preserving filter-map of the document: the k-th word comes from the k-th contributing token, the positions strictly increase, and every contributing token is represented |
| Engine.LowAggressivenessKeepsAll | engine.py:53-54 | below 0.7 the word list is exactly the token texts, one per token |
| Engine.ContentTokensKept | engine.py:51-52 | in any document, every noun, proper noun and number appears verbatim in the output, at the position of its origin |
| Engine.ContentWordsKept | engine.py:51-52 | a document of nouns, proper nouns and numbers comes through verbatim at every aggressiveness |
| Engine.BlankTextUntouched | engine.py:42-43 | whitespace-only text is returned unchanged, whatever the tagger and lemma tables are |
| Engine.Reduced | engine.py:41-55 | the reducer's result: the text itself when `strip()` is empty, else the emitted words joined by " "; `LinguisticOptimize` computes it |
| Engine.ReducedSplitsBack | engine.py:55 | when every emitted word is a single word, `split()` of the result gives back exactly the emitted words, so there are at most as many as tokens |
| Engine.ReducedWordCount | engine.py:42-55 | when no emitted word splits into more than one piece (whitespace tokens split into none), the result has at most as many `split()` words as the document has tokens |
| Engine.TokenCounts | engine.py:18-24 | both counts from the encoder when it succeeds on both texts, else both from `split()`; its properties are in `OptimizeCounts` |
| Engine.Optimize | engine.py:12-26 | rules, then reducer, then normalisation, then the two counts; its properties are in `OptimizeOutput`, `OptimizeCounts`, `EmptyPrompt` and `FallbackCountBounded` |
| Engine.OptimizeOutput | engine.py:12-16 | the optimized text is normal (plain single spaces, nothing at either end), a fixpoint of normalisation, and equal to the reducer's words joined by single spaces |
| Engine.OptimizeCounts | engine.py:18-24 | both counts come from the encoder when it succeeds on both texts; otherwise they are `split()` counts, and the new one equals the reducer output's word count |
| Engine.EmptyPrompt | engine.py:12-26 | an empty prompt gives "" and two equal counts, both 0 under the fallback, given that the four word-level patterns do not match the empty string |
| Engine.FallbackCountBounded | engine.py:18-24 | under the fallback, entered when either `encode` call fails, and when no emitted word splits into more than one piece, the new count is at most the number of tagged tokens |
| Whitespace.IsSpace | engine.py:16 | `str.isspace`, the `\s` class of a `str` pattern, as a table of code point ranges |
| Whitespace.LStrip | engine.py:42 | `lstrip()`: leading whitespace dropped one character at a time; what it keeps is in `LStripDrops` |
| Whitespace.RStrip | engine.py:16 | `rstrip()`: trailing whitespace dropped one character at a time; what it keeps is in `RStripDrops` |
| Whitespace.Strip | engine.py:42 | `strip()` as `rstrip` after `lstrip`; its properties are in `StripDrops` and `WordsOfStrip` |
| Whitespace.Words | engine.py:23-24 | `split()`: skip whitespace, take the maximal non-whitespace run, repeat; its properties are in `WordsAreWords`, `WordsConcat` and `WordsOfJoin` |
| Whitespace.Join | engine.py:55 | `sep.join(ws)`; its inverse under `split()` is `JoinSplitsBack` |
| Whitespace.CollapseSpace | engine.py:16 | `re.sub(r"\s+", " ", s)`: each maximal whitespace run becomes one space; its properties are in `CollapseSpaceShape`, `WordsOfCollapseSpace` and `CollapseSpaceFixes` |
| Whitespace.SubLongRuns | engine.py:34 | `re.sub(r"\s{2,}", repl, s)`: each maximal run of two or more whitespace characters becomes `repl`; its properties are in `SubLongRunsShape`, `WordsOfSubLongRuns` and `SubLongRunsFixes` |
| Whitespace.Normalize | engine.py:16 | the collapse followed by `strip()`; its properties are in `NormalizeFacts` |
| Whitespace.LStripDrops | engine.py:42 | `lstrip` removes an all-whitespace prefix and leaves a suffix that does not start with whitespace |
| Whitespace.RStripDrops | engine.py:16 | `rstrip` removes an all-whitespace suffix and leaves a prefix that does not end with whitespace |
| Whitespace.StripDrops | engine.py:42 | `strip()` is empty exactly when the text is all whitespace, and otherwise has no whitespace at either end |
| Whitespace.WordsAreWords | engine.py:23-24 | `split()` yields only non-empty, whitespace-free pieces |
| Whitespace.WordsConcat | engine.py:23-24 | `split()` distributes over a concatenation joined at whitespace |
| Whitespace.WordsOfAllCount | engine.py:24 | pieces that each split into at most one word give at most one word per piece |
| Whitespace.WordsOfJoin | engine.py:55 | `split()` of a space-joined list is the concatenation of the pieces' splits |
| Whitespace.JoinSplitsBack | engine.py:55 | joining whitespace-free non-empty words with " " and splitting gives the list back |
| Whitespace.WordsOfStrip | engine.py:16 | `strip()` does not change `split()` |
| Whitespace.CollapseSpaceShape | engine.py:16 | after `re.sub(r"\s+", " ", s)` no two whitespace characters are adjacent, and every one left is U+0020 |
| Whitespace.WordsOfCollapseSpace | engine.py:16 | collapsing whitespace runs does not change `split()` |
| Whitespace.CollapseSpaceFixes | engine.py:16 | text with single plain spaces is left unchanged by the collapse |
| Whitespace.NormalizeIsNormal | engine.py:16 | the normalised text is normal |
| Whitespace.NormalizeFixesNormal | engine.py:16 | normal text is a fixpoint of normalisation |
| Whitespace.NormalizeIdempotent | engine.py:16 | normalising twice is normalising once |
| Whitespace.WordsOfNormalize | engine.py:16 | normalisation keeps `split()`, so the fallback word count is unchanged |
| Whitespace.NormalIsJoinOfWords | engine.py:16 | a normal text is its own words joined by single spaces |
| Whitespace.NormalizeIsJoinOfWords | engine.py:16 | normalisation equals `" ".join(s.split())` |
| Whitespace.NormalizeFacts | engine.py:16 | normalisation gives normal text, is idempotent, equals `" ".join(s.split())` and keeps `split()` |
| Whitespace.SubLongRunsShape | engine.py:34 | after `re.sub(r"\s{2,}", " ", s)` no two whitespace characters are adjacent |
| Whitespace.WordsOfSubLongRuns | engine.py:34 | the whitespace-run rule does not change `split()` |
| Whitespace.SubLongRunsFixes | engine.py:34 | text without adjacent whitespace is left unchanged by the whitespace-run rule |

## Left out

- **Constructor (engine.py:8-10).** Loading `en_core_web_sm` and the `cl100k_base` encoding is not modelled. Both become fields of the `Optimizer` value, with no properties assumed.
- **Exceptions from the tagger and the lemma lookup.** Only the two `encode` calls are inside the `try` (engine.py:18-22). An exception from `self.nlp(text)` (engine.py:44) or from `getAllLemmas` (engine.py:48) reaches the caller of `optimize`; spaCy, for example, raises `ValueError` for text longer than `nlp.max_length`. The model treats `nlp` and `nounLemmas` as total functions, so `Optimize` always returns an `Outcome` and these failures are not modelled.
- **spaCy tagging.** It is an opaque function from text to `(text, pos_)` tokens. Nothing ties the token texts to the input, so properties that need that tie take it as a `requires`; see `ReducedSplitsBack`.
- **Word-level rules 1–4.** Regular-expression matching for them (including `\b` and `re.IGNORECASE`) is the opaque `reSub` field. The patterns are kept as text in `Source`. Only the whitespace-run rule, whose `IGNORECASE` flag has no effect, is modelled exactly. `EmptyPrompt` assumes that `reSub` maps "" to "" for the four word-level patterns. None of those patterns can match the empty string, but a general `re.sub` does not map "" to "" (`re.sub("", "x", "")` is `"x"`), so the assumption is stated per pattern.
- **lemminflect.** `getAllLemmas(...).get("NOUN")` is an opaque function returning a sequence. `next(iter(...))` on the returned tuple is modelled as its first element.
- **tiktoken encoding.** It is an opaque function. The bare `except` at engine.py:22 catches any exception from either `encode` call. This is modelled as either call returning `None`; no other kind of failure is distinguished.
- **Aggressiveness.** Python floats are modelled as reals, so rounding of literals such as 0.7 or 0.8 is not modelled.
- **Whitespace-run rule (engine.py:34).** The comment says it always applies, but the gate `priority >= aggressiveness` lets it fire only when aggressiveness <= 0. The model follows the code (`RulesAppliedBands`).
- **UI scripts.** The Streamlit front ends (`app_stage1.py`, `app_stage1_vo_working.py`) are not part of this model.
- **Whitespace.LStrip, Whitespace.RStrip:** their own `ensures` state only that the result is no longer than the input. What they remove and keep is stated in `LStripDrops` and `RStripDrops`.
- **Engine.Emit:** its own `ensures` bounds only the length. Its content and order are stated in `DecideTable`, `EmitAppend` and `OriginsTrace`.
