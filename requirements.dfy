/** The requirements loader of the shortlisting script: the job description as
    read, and the keyword file reduced to its trimmed, non-blank lines. */
module Requirements {
  import opened Text
  import opened Wrappers

  /** What the prompt is built from: a free-text job description and the
      required skills, in file order. */
  datatype Requirements = Requirements(description: string, keywords: seq<string>)

  /** `[line.strip() for line in f if line.strip()]`: every line trimmed, blank
      lines dropped, order and duplicates kept. */
  function KeepKeywords(lines: seq<string>): (kept: seq<string>)
    ensures |kept| <= |lines|
  {
    if lines == [] then []
    else
      var word := Strip(lines[0]);
      (if word != "" then [word] else []) + KeepKeywords(lines[1..])
  }

  /** No kept keyword is empty or carries surrounding whitespace. */
  lemma {:induction false} KeepKeywordsClean(lines: seq<string>, k: nat)
    requires k < |KeepKeywords(lines)|
    ensures var word := KeepKeywords(lines)[k];
      word != "" && !IsSpace(word[0]) && !IsSpace(word[|word| - 1])
    ensures Strip(KeepKeywords(lines)[k]) == KeepKeywords(lines)[k]
  {
    var i := KeepKeywordsSource(lines, k);
    StripSpec(lines[i]);
    StripIdempotent(lines[i]);
  }

  /** Filtering a file is filtering its two halves and concatenating. */
  lemma {:induction false} KeepKeywordsAppend(a: seq<string>, b: seq<string>)
    ensures KeepKeywords(a + b) == KeepKeywords(a) + KeepKeywords(b)
  {
    if a == [] {
      assert a + b == b;
    } else {
      assert (a + b)[0] == a[0];
      assert (a + b)[1..] == a[1..] + b;
      KeepKeywordsAppend(a[1..], b);
    }
  }

  /** A single line is kept, trimmed, exactly when it is not blank. */
  lemma KeepKeywordsSingle(line: string)
    ensures KeepKeywords([line]) == if Strip(line) != "" then [Strip(line)] else []
  {
    assert [line][1..] == [];
  }

  /** Every non-blank line is kept, trimmed, right after the keywords kept from
      the lines before it; a blank line contributes nothing. */
  lemma KeepKeywordsLine(lines: seq<string>, i: nat)
    requires i < |lines|
    ensures var before := |KeepKeywords(lines[..i])|;
      if Strip(lines[i]) == "" then
        KeepKeywords(lines[..i + 1]) == KeepKeywords(lines[..i])
      else
        before < |KeepKeywords(lines)| && KeepKeywords(lines)[before] == Strip(lines[i])
  {
    assert lines[..i + 1] == lines[..i] + [lines[i]];
    KeepKeywordsAppend(lines[..i], [lines[i]]);
    assert lines == lines[..i + 1] + lines[i + 1..];
    KeepKeywordsAppend(lines[..i + 1], lines[i + 1..]);
    assert [lines[i]][1..] == [];
  }

  /** Conversely, every kept keyword is the trimmed form of some line, and the
      keywords kept before it are exactly those of the lines before that line. */
  lemma {:induction false} KeepKeywordsSource(lines: seq<string>, k: nat) returns (i: nat)
    requires k < |KeepKeywords(lines)|
    ensures i < |lines|
    ensures Strip(lines[i]) == KeepKeywords(lines)[k] && Strip(lines[i]) != ""
    ensures |KeepKeywords(lines[..i])| == k
  {
    var word := Strip(lines[0]);
    var head := if word != "" then [word] else [];
    var tail := KeepKeywords(lines[1..]);
    assert KeepKeywords(lines) == head + tail;
    if k < |head| {
      i := 0;
      assert lines[..0] == [];
    } else {
      var j := KeepKeywordsSource(lines[1..], k - |head|);
      i := j + 1;
      var prefix := lines[..i];
      assert prefix[0] == lines[0] && prefix[1..] == lines[1..][..j];
      assert KeepKeywords(prefix) == head + KeepKeywords(lines[1..][..j]);
      assert (head + tail)[k] == tail[k - |head|];
    }
  }

  /** Filtering an already filtered list changes nothing. */
  lemma {:induction false} KeepKeywordsIdempotent(lines: seq<string>)
    ensures KeepKeywords(KeepKeywords(lines)) == KeepKeywords(lines)
  {
    if lines != [] {
      KeepKeywordsIdempotent(lines[1..]);
      var word := Strip(lines[0]);
      if word != "" {
        assert KeepKeywords(lines) == [word] + KeepKeywords(lines[1..]);
        StripIdempotent(lines[0]);
        KeepKeywordsAppend([word], KeepKeywords(lines[1..]));
        KeepKeywordsSingle(word);
      } else {
        assert KeepKeywords(lines) == KeepKeywords(lines[1..]);
      }
    }
  }

  /** `load_requirements`: both files read, or, when either read fails, an empty
      description and no keywords. */
  function LoadRequirements(jobFile: Option<string>, keywordLines: Option<seq<string>>): (r: Requirements)
    ensures jobFile.Some? && keywordLines.Some? ==> r.description == jobFile.value
    ensures keywordLines.Some? && jobFile.Some? ==> r.keywords == KeepKeywords(keywordLines.value)
    ensures jobFile.None? || keywordLines.None? ==> r == Requirements("", [])
  {
    match (jobFile, keywordLines)
    case (Some(job), Some(lines)) => Requirements(job, KeepKeywords(lines))
    case _ => Requirements("", [])
  }
}
