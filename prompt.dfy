/** `build_prompt`: the single text sent to the language model, made of the job
    description, the joined keywords, one block per résumé and a fixed set of
    instructions with the reply format the model is asked to follow. */
module Prompt {
  import opened Text

  /** A résumé as the prompt sees it: its file name and its extracted text. */
  datatype Resume = Resume(filename: string, content: string)

  /** The fixed texts of the prompt's f-strings, between which the job
      description, the keywords and the résumés are inserted. */
  datatype Template = Template(
    intro: string,
    skillsHeading: string,
    resumesHeading: string,
    resumeLabel: string,
    contentLabel: string,
    blockEnd: string,
    instructions: string)

  /** The texts `build_prompt` uses. */
  const TEMPLATE := Template(
    "\nI need to shortlist resumes based on the following job description and required skills.\n\nJob Description:\n",
    "\n\nRequired Skills/Keywords:\n",
    "\n\nEach resume is labeled by its filename.\n\nHere are the resumes:\n",
    "\nResume: ",
    "\nContent:\n",
    "\n---\n",
    "\nInstructions:\n" +
    "- Evaluate each resume using the job description and keywords.\n" +
    "- Score each resume out of 100 based on relevance, experience, and education.\n" +
    "- Return a list of shortlisted resumes (score >= 80) and rejected ones with reasons.\n" +
    "- Sort shortlisted resumes by score descending.\n" +
    "\nReturn format:\n" +
    "\nShortlisted:\n" +
    "1. Filename: <filename.pdf>\n" +
    "   Score: <score>\n" +
    "   Summary: <short reason>\n" +
    "\nRejected:\n" +
    "1. Filename: <filename.pdf>\n" +
    "   Reason: <short reason>\n" +
    "   Score: <score>\n")

  /** Only this many leading characters of a résumé's text reach the model. */
  const MAX_CONTENT: nat := 3000

  const KEYWORD_SEPARATOR := ", "

  /** `content[:3000]`: the first `min(len, 3000)` characters. */
  function Truncate(content: string): (r: string)
    ensures |r| == if |content| < MAX_CONTENT then |content| else MAX_CONTENT
    ensures r == content[..|r|]
  {
    if |content| <= MAX_CONTENT then content else content[..MAX_CONTENT]
  }

  /** The text before the résumé blocks. */
  function Header(t: Template, jobDesc: string, keywords: seq<string>): string {
    t.intro + jobDesc + t.skillsHeading + Join(keywords, KEYWORD_SEPARATOR) + t.resumesHeading
  }

  /** The labelled block of one résumé. */
  function Block(t: Template, r: Resume): string {
    t.resumeLabel + r.filename + t.contentLabel + Truncate(r.content) + t.blockEnd
  }

  /** The blocks of all résumés, in iteration order. */
  function Blocks(t: Template, resumes: seq<Resume>): string {
    if resumes == [] then ""
    else Blocks(t, resumes[..|resumes| - 1]) + Block(t, resumes[|resumes| - 1])
  }

  /** The prompt made from template `t`. */
  function Render(t: Template, jobDesc: string, keywords: seq<string>, resumes: seq<Resume>): string {
    Header(t, jobDesc, keywords) + Blocks(t, resumes) + t.instructions
  }

  /** `build_prompt(job_desc, keywords, resumes)`: the header, then one block
      appended per résumé in mapping order, then the instructions. */
  method BuildPrompt(jobDesc: string, keywords: seq<string>, resumes: seq<Resume>) returns (prompt: string)
    ensures prompt == Render(TEMPLATE, jobDesc, keywords, resumes)
  {
    var t := TEMPLATE;
    prompt := Header(t, jobDesc, keywords);
    var i := 0;
    assert resumes[..0] == [] && prompt + "" == prompt;
    while i < |resumes|
      invariant i <= |resumes|
      invariant prompt == Header(t, jobDesc, keywords) + Blocks(t, resumes[..i])
    {
      BlocksSnoc(t, Header(t, jobDesc, keywords), resumes, i);
      prompt := prompt + Block(t, resumes[i]);
      i := i + 1;
    }
    assert resumes[..i] == resumes;
    prompt := prompt + t.instructions;
  }

  /** Appending the next résumé's block to a text ending with the blocks of
      the résumés before it gives the text ending with the blocks up to it. */
  lemma BlocksSnoc(t: Template, head: string, resumes: seq<Resume>, i: nat)
    requires i < |resumes|
    ensures Blocks(t, resumes[..i + 1]) == Blocks(t, resumes[..i]) + Block(t, resumes[i])
    ensures head + Blocks(t, resumes[..i + 1]) == (head + Blocks(t, resumes[..i])) + Block(t, resumes[i])
  {
    assert resumes[..i + 1][..i] == resumes[..i];
  }

  /** Where the joined keyword string begins in the prompt. */
  function KeywordsStart(t: Template, jobDesc: string): nat {
    |t.intro| + |jobDesc| + |t.skillsHeading|
  }

  /** Where the block of `resumes[k]` begins in the prompt. */
  function BlockStart(t: Template, jobDesc: string, keywords: seq<string>, resumes: seq<Resume>, k: nat): nat
    requires k <= |resumes|
  {
    |Header(t, jobDesc, keywords)| + |Blocks(t, resumes[..k])|
  }

  /** What stands in the header stands at the same offset in the prompt. */
  lemma HeaderOccurrence(t: Template, jobDesc: string, keywords: seq<string>, resumes: seq<Resume>, at: nat, piece: string)
    requires OccursAt(Header(t, jobDesc, keywords), at, piece)
    ensures OccursAt(Render(t, jobDesc, keywords, resumes), at, piece)
  {
    var h := Header(t, jobDesc, keywords);
    OccursInLeft(h + Blocks(t, resumes), h, Blocks(t, resumes), at, piece);
    OccursInLeft(Render(t, jobDesc, keywords, resumes), h + Blocks(t, resumes), t.instructions, at, piece);
  }

  /** The job description occurs verbatim in the prompt, right after the intro. */
  lemma PromptHasJobDescription(t: Template, jobDesc: string, keywords: seq<string>, resumes: seq<Resume>)
    ensures OccursAt(Render(t, jobDesc, keywords, resumes), |t.intro|, jobDesc)
  {
    var h := Header(t, jobDesc, keywords);
    var x := t.intro + jobDesc;
    OccursWhole(jobDesc);
    OccursInRight(x, t.intro, jobDesc, 0, jobDesc);
    var y := x + t.skillsHeading;
    OccursInLeft(y, x, t.skillsHeading, |t.intro|, jobDesc);
    var z := y + Join(keywords, KEYWORD_SEPARATOR);
    OccursInLeft(z, y, Join(keywords, KEYWORD_SEPARATOR), |t.intro|, jobDesc);
    OccursInLeft(h, z, t.resumesHeading, |t.intro|, jobDesc);
    HeaderOccurrence(t, jobDesc, keywords, resumes, |t.intro|, jobDesc);
  }

  /** The `", "`-joined keywords occur verbatim in the prompt. */
  lemma PromptHasKeywords(t: Template, jobDesc: string, keywords: seq<string>, resumes: seq<Resume>)
    ensures OccursAt(Render(t, jobDesc, keywords, resumes), KeywordsStart(t, jobDesc), Join(keywords, KEYWORD_SEPARATOR))
  {
    var joined := Join(keywords, KEYWORD_SEPARATOR);
    var h := Header(t, jobDesc, keywords);
    var y := t.intro + jobDesc + t.skillsHeading;
    var z := y + joined;
    OccursWhole(joined);
    OccursInRight(z, y, joined, 0, joined);
    OccursInLeft(h, z, t.resumesHeading, |y|, joined);
    HeaderOccurrence(t, jobDesc, keywords, resumes, |y|, joined);
  }

  /** Inside the joined keywords, every single keyword stands at its offset. */
  lemma PromptHasKeyword(t: Template, jobDesc: string, keywords: seq<string>, resumes: seq<Resume>, k: nat)
    requires k < |keywords|
    ensures OccursAt(Render(t, jobDesc, keywords, resumes),
                     KeywordsStart(t, jobDesc) + JoinOffset(keywords, KEYWORD_SEPARATOR, k), keywords[k])
  {
    PromptHasKeywords(t, jobDesc, keywords, resumes);
    JoinContainsPart(keywords, KEYWORD_SEPARATOR, k);
    OccursWithin(Render(t, jobDesc, keywords, resumes), KeywordsStart(t, jobDesc), Join(keywords, KEYWORD_SEPARATOR),
                 JoinOffset(keywords, KEYWORD_SEPARATOR, k), keywords[k]);
  }

  /** Within the blocks of the whole mapping, the block of `resumes[k]` stands
      right after the blocks of the résumés before it. */
  lemma {:induction false} BlocksPrefix(t: Template, resumes: seq<Resume>, k: nat)
    requires k < |resumes|
    ensures OccursAt(Blocks(t, resumes), |Blocks(t, resumes[..k])|, Block(t, resumes[k]))
    decreases |resumes|
  {
    var n := |resumes|;
    var init := resumes[..n - 1];
    var all := Blocks(t, resumes);
    assert all == Blocks(t, init) + Block(t, resumes[n - 1]);
    if k == n - 1 {
      assert resumes[..k] == init;
      OccursWhole(Block(t, resumes[k]));
      OccursInRight(all, Blocks(t, init), Block(t, resumes[k]), 0, Block(t, resumes[k]));
    } else {
      BlocksPrefix(t, init, k);
      assert init[..k] == resumes[..k];
      assert init[k] == resumes[k];
      OccursInLeft(all, Blocks(t, init), Block(t, resumes[n - 1]), |Blocks(t, resumes[..k])|, Block(t, resumes[k]));
    }
  }

  /** The pieces of one block: the label, the file name, the content label,
      the résumé's text cut to `min(len, 3000)` characters, the separator. */
  lemma BlockParts(t: Template, r: Resume)
    ensures var contentAt := |t.resumeLabel| + |r.filename| + |t.contentLabel|;
      var c := Truncate(r.content);
      && |Block(t, r)| == contentAt + |c| + |t.blockEnd|
      && OccursAt(Block(t, r), 0, t.resumeLabel)
      && OccursAt(Block(t, r), |t.resumeLabel|, r.filename)
      && OccursAt(Block(t, r), |t.resumeLabel| + |r.filename|, t.contentLabel)
      && OccursAt(Block(t, r), contentAt, c)
      && OccursAt(Block(t, r), contentAt + |c|, t.blockEnd)
  {
  }

  /** Exactly one block per résumé, in mapping order: the block of `resumes[k]`
      stands at its start offset in the prompt. */
  lemma PromptHasBlock(t: Template, jobDesc: string, keywords: seq<string>, resumes: seq<Resume>, k: nat)
    requires k < |resumes|
    ensures OccursAt(Render(t, jobDesc, keywords, resumes), BlockStart(t, jobDesc, keywords, resumes, k), Block(t, resumes[k]))
  {
    var h := Header(t, jobDesc, keywords);
    var all := Blocks(t, resumes);
    BlocksPrefix(t, resumes, k);
    OccursInRight(h + all, h, all, |Blocks(t, resumes[..k])|, Block(t, resumes[k]));
    OccursInLeft(Render(t, jobDesc, keywords, resumes), h + all, t.instructions,
                 |h| + |Blocks(t, resumes[..k])|, Block(t, resumes[k]));
  }

  /** The summed block lengths, each block being its labels, its file name
      and `min(len, 3000)` characters of content long. */
  function BlocksLength(t: Template, resumes: seq<Resume>): nat {
    if resumes == [] then 0
    else
      var r := resumes[|resumes| - 1];
      BlocksLength(t, resumes[..|resumes| - 1]) + |t.resumeLabel| + |r.filename| + |t.contentLabel|
        + |Truncate(r.content)| + |t.blockEnd|
  }

  /** The prompt is nothing but the header, the blocks and the instructions:
      its length is the sum of theirs, so no résumé adds more than 3000
      characters of its text. */
  lemma {:induction false} PromptLength(t: Template, jobDesc: string, keywords: seq<string>, resumes: seq<Resume>)
    ensures |Render(t, jobDesc, keywords, resumes)| ==
            |Header(t, jobDesc, keywords)| + BlocksLength(t, resumes) + |t.instructions|
  {
    BlocksLengthIsLength(t, resumes);
  }

  lemma {:induction false} BlocksLengthIsLength(t: Template, resumes: seq<Resume>)
    ensures |Blocks(t, resumes)| == BlocksLength(t, resumes)
  {
    if resumes != [] {
      BlocksLengthIsLength(t, resumes[..|resumes| - 1]);
    }
  }
}
