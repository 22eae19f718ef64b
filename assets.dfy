/**
 * The prompt-asset helpers of habeeba_run.py: `gather_files_text`, which
 * concatenates headed file texts and truncates the result to a byte budget
 * on a UTF-8 boundary, and `fill_template`, which substitutes the assets
 * into a prompt template.
 */
module Assets {
  import opened Wrappers
  import Utf8
  import Text

  /**
   * One path yielded by `sorted(root.rglob(pattern))`: its path relative to
   * the script's directory and its text, None when `read_text` raised.
   */
  datatype Match = Match(relPath: string, text: Option<string>)

  const TruncationNotice: string := "\n\n===== NOTE =====\n[TRUNCATED to fit token/size budget]\n"

  /** The headed part one readable file contributes. */
  function Part(relPath: string, text: string): string
  {
    "\n===== FILE: " + relPath + " =====\n" + text + "\n"
  }

  /** The parts of the readable files of one pattern, in the order given. */
  function PartsOfMatches(files: seq<Match>): (parts: seq<string>)
    ensures |parts| <= |files|
  {
    if files == [] then []
    else
      var last := files[|files| - 1];
      PartsOfMatches(files[..|files| - 1])
        + (if last.text.Some? then [Part(last.relPath, last.text.value)] else [])
  }

  /** A readable match contributes its headed part after the parts before it. */
  lemma ReadablePartAppended(before: seq<Match>, relPath: string, text: string)
    ensures PartsOfMatches(before + [Match(relPath, Some(text))])
            == PartsOfMatches(before) + [Part(relPath, text)]
  {
    assert (before + [Match(relPath, Some(text))])[..|before|] == before;
  }

  /** The parts of all patterns, pattern by pattern. */
  function PartsOfPatterns(matches: seq<seq<Match>>): seq<string>
  {
    if matches == [] then []
    else PartsOfPatterns(matches[..|matches| - 1]) + PartsOfMatches(matches[|matches| - 1])
  }

  /** `"".join(parts)` */
  function Concat(parts: seq<string>): string
  {
    if parts == [] then "" else Concat(parts[..|parts| - 1]) + parts[|parts| - 1]
  }

  /** The untruncated blob: the concatenated parts of every readable match. */
  function Blob(matches: seq<seq<Match>>): string
  {
    Concat(PartsOfPatterns(matches))
  }

  lemma {:induction false} ConcatAppend(a: seq<string>, b: seq<string>)
    ensures Concat(a + b) == Concat(a) + Concat(b)
  {
    if b == [] {
      assert a + b == a;
    } else {
      assert (a + b)[..|a + b| - 1] == a + b[..|b| - 1];
      ConcatAppend(a, b[..|b| - 1]);
    }
  }

  /**
   * Glob order: the blob of a further pattern's matches is the blob so far
   * followed by that pattern's parts in their (sorted) order.
   */
  lemma BlobFollowsPatternOrder(matches: seq<seq<Match>>, files: seq<Match>)
    ensures Blob(matches + [files]) == Blob(matches) + Concat(PartsOfMatches(files))
  {
    assert (matches + [files])[..|matches|] == matches;
    ConcatAppend(PartsOfPatterns(matches), PartsOfMatches(files));
  }

  /** An unreadable match contributes nothing. */
  lemma {:induction false} UnreadableSkipped(before: seq<Match>, relPath: string, after: seq<Match>)
    ensures PartsOfMatches(before + [Match(relPath, None)] + after) == PartsOfMatches(before + after)
    decreases |after|
  {
    if after == [] {
      var m := Match(relPath, None);
      assert before + [m] + after == before + [m];
      assert (before + [m])[..|before|] == before;
      assert before + after == before;
    } else {
      var n := |after| - 1;
      assert (before + [Match(relPath, None)] + after)[..|before| + 1 + n] == before + [Match(relPath, None)] + after[..n];
      assert (before + after)[..|before| + n] == before + after[..n];
      UnreadableSkipped(before, relPath, after[..n]);
    }
  }

  /**
   * The end index of Python's slice `bs[:maxBytes]` on `length` bytes: the
   * kept bytes fit a non-negative budget and use all of it when there are
   * enough; a negative budget drops that many bytes from the end (or all).
   */
  function SliceEnd(maxBytes: int, length: nat): (k: nat)
    ensures k <= length
    ensures 0 <= maxBytes ==> k <= maxBytes
    ensures 0 <= maxBytes <= length ==> k == maxBytes
    ensures 0 < length && maxBytes < length ==> k < length
    ensures maxBytes < 0 ==> k == 0 || length - k == -maxBytes
  {
    if 0 <= maxBytes then
      if maxBytes < length then maxBytes else length
    else if length + maxBytes > 0 then length + maxBytes else 0
  }

  /** Whether `gather_files_text` truncates a blob under the given budget. */
  predicate OverBudget(blob: string, maxBytes: Option<int>)
  {
    maxBytes.Some? && |Utf8.Encode(blob)| > maxBytes.value
  }

  /**
   * `gather_files_text(root, globs, max_bytes)`, where `rootExists` says
   * whether `root` exists and `matches[i]` is what `sorted(root.rglob(globs[i]))`
   * yields. Untruncated, the result is exactly the blob; truncated, it is the
   * longest prefix of the blob whose UTF-8 form fits the budget, followed by
   * the notice.
   */
  method GatherFilesText(rootExists: bool, matches: seq<seq<Match>>, maxBytes: Option<int>)
    returns (out: string)
    ensures !rootExists ==> out == ""
    ensures rootExists && !OverBudget(Blob(matches), maxBytes) ==> out == Blob(matches)
    ensures rootExists && OverBudget(Blob(matches), maxBytes) ==>
      && |out| >= |TruncationNotice|
      && out[|out| - |TruncationNotice|..] == TruncationNotice
      && Utf8.LongestFittingPrefix(Blob(matches), out[..|out| - |TruncationNotice|],
                              SliceEnd(maxBytes.value, |Utf8.Encode(Blob(matches))|))
    ensures rootExists && OverBudget(Blob(matches), maxBytes) && 0 <= maxBytes.value ==>
      Utf8.LongestFittingPrefix(Blob(matches), out[..|out| - |TruncationNotice|], maxBytes.value)
  {
    if !rootExists {
      return "";
    }
    var parts: seq<string> := [];
    for i := 0 to |matches|
      invariant parts == PartsOfPatterns(matches[..i])
    {
      var files := matches[i];
      for j := 0 to |files|
        invariant parts == PartsOfPatterns(matches[..i]) + PartsOfMatches(files[..j])
      {
        assert files[..j + 1][..j] == files[..j];
        var f := files[j];
        if f.text.None? {
          continue;
        }
        parts := parts + [Part(f.relPath, f.text.value)];
      }
      assert files[..|files|] == files;
      assert matches[..i + 1][..i] == matches[..i];
    }
    assert matches[..|matches|] == matches;
    var blob := Concat(parts);
    var encoded := Utf8.Encode(blob);
    if maxBytes.Some? && |encoded| > maxBytes.value {
      var truncated := encoded[..SliceEnd(maxBytes.value, |encoded|)];
      var strict := Utf8.DecodeStrict(truncated);
      if strict.Some? {
        blob := strict.value;
      } else {
        blob := Utf8.Decode(truncated).text;
      }
      Utf8.DecodeTruncated(Concat(parts), |truncated|);
      blob := blob + TruncationNotice;
      assert blob[..|blob| - |TruncationNotice|] == Utf8.Decode(truncated).text;
    }
    out := blob;
  }

  /** The six assets `fill_template` substitutes; an asset whose file is missing is "". */
  datatype Assets = Assets(rules: string, schema: string, guardrails: string,
                           brd: string, tfTemplates: string, pySources: string)

  /**
   * `fill_template(t)`: six chained `replace` calls, in this order; an asset
   * substituted early is itself subject to the later substitutions.
   */
  function FillTemplate(t: string, a: Assets): string
  {
    var t1 := Text.ReplaceAll(t, "{RULES_TEXT}", a.rules);
    var t2 := Text.ReplaceAll(t1, "{SCHEMA}", a.schema);
    var t3 := Text.ReplaceAll(t2, "{GUARDRAILS_TEXT}", a.guardrails);
    var t4 := Text.ReplaceAll(t3, "{BRD_TEXT}", a.brd);
    var t5 := Text.ReplaceAll(t4, "{TF_TEMPLATES}", a.tfTemplates);
    Text.ReplaceAll(t5, "{PY_SOURCES}", a.pySources)
  }

  /** A template with none of the six placeholders is returned unchanged. */
  lemma FillTemplateWithoutPlaceholders(t: string, a: Assets)
    requires !Text.Contains(t, "{RULES_TEXT}") && !Text.Contains(t, "{SCHEMA}")
    requires !Text.Contains(t, "{GUARDRAILS_TEXT}") && !Text.Contains(t, "{BRD_TEXT}")
    requires !Text.Contains(t, "{TF_TEMPLATES}") && !Text.Contains(t, "{PY_SOURCES}")
    ensures FillTemplate(t, a) == t
  {
    Text.ReplaceAllWithoutOccurrence(t, "{RULES_TEXT}", a.rules);
    Text.ReplaceAllWithoutOccurrence(t, "{SCHEMA}", a.schema);
    Text.ReplaceAllWithoutOccurrence(t, "{GUARDRAILS_TEXT}", a.guardrails);
    Text.ReplaceAllWithoutOccurrence(t, "{BRD_TEXT}", a.brd);
    Text.ReplaceAllWithoutOccurrence(t, "{TF_TEMPLATES}", a.tfTemplates);
    Text.ReplaceAllWithoutOccurrence(t, "{PY_SOURCES}", a.pySources);
  }

  /**
   * The substitutions are chained: in a template that is just "{RULES_TEXT}",
   * the rules asset is substituted and then itself undergoes the other five
   * replacements, so a later placeholder inside it is substituted too.
   */
  lemma FillTemplateChainsSubstitutions(a: Assets)
    ensures FillTemplate("{RULES_TEXT}", a)
            == Text.ReplaceAll(Text.ReplaceAll(Text.ReplaceAll(Text.ReplaceAll(Text.ReplaceAll(
                 a.rules, "{SCHEMA}", a.schema), "{GUARDRAILS_TEXT}", a.guardrails),
                 "{BRD_TEXT}", a.brd), "{TF_TEMPLATES}", a.tfTemplates), "{PY_SOURCES}", a.pySources)
  {
    var t := "{RULES_TEXT}";
    assert t[..|t|] == t && t[|t|..] == "";
    assert Text.ReplaceAll(t, t, a.rules) == a.rules + Text.ReplaceAll("", t, a.rules);
    assert a.rules + "" == a.rules;
  }
}
