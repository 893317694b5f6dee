/** `main` of the shortlisting script: collect the PDF résumés of the data
    folder, load the requirements, build the prompt, ask the model and file
    what it shortlisted. The directory listing, the PDF text extractor and
    the chat model are parameters. */
module Pipeline {
  import opened Wrappers
  import opened Text
  import opened Requirements
  import opened Prompt
  import opened Scrape
  import opened Filer

  const PDF := ".pdf"

  /** Where the résumé for `filename` sits in the mapping, if it is there. */
  function KeyIndex(resumes: seq<Resume>, filename: string): (r: Option<nat>)
    ensures r.Some? ==> r.value < |resumes| && resumes[r.value].filename == filename
    ensures r.None? ==> forall j :: 0 <= j < |resumes| ==> resumes[j].filename != filename
  {
    if resumes == [] then None
    else if resumes[|resumes| - 1].filename == filename then Some(|resumes| - 1)
    else KeyIndex(resumes[..|resumes| - 1], filename)
  }

  /** The file names of a résumé mapping, in insertion order. */
  function Filenames(resumes: seq<Resume>): (names: seq<string>)
    ensures |names| == |resumes|
    ensures forall j :: 0 <= j < |resumes| ==> names[j] == resumes[j].filename
  {
    seq(|resumes|, j requires 0 <= j < |resumes| => resumes[j].filename)
  }

  /** The directory entries the script treats as résumés, in listing order. */
  function PdfEntries(listing: seq<string>): (pdfs: seq<string>)
    ensures forall x :: x in pdfs <==> x in listing && EndsWith(x, PDF)
  {
    if listing == [] then []
    else
      var before := PdfEntries(listing[..|listing| - 1]);
      var last := listing[|listing| - 1];
      assert listing == listing[..|listing| - 1] + [last];
      if EndsWith(last, PDF) then before + [last] else before
  }

  predicate Distinct(xs: seq<string>) {
    forall i, j :: 0 <= i < j < |xs| ==> xs[i] != xs[j]
  }

  /** `resumes[r.filename] = r.content` on a dict kept as its entries in
      insertion order: a key already present keeps its place and takes the new
      content; a new key goes last. */
  function Put(resumes: seq<Resume>, r: Resume): (out: seq<Resume>)
    ensures forall x :: x in Filenames(out) <==> x in Filenames(resumes) || x == r.filename
    ensures Distinct(Filenames(resumes)) ==> Distinct(Filenames(out))
    ensures forall j :: 0 <= j < |out| ==> out[j] == r || (j < |resumes| && out[j] == resumes[j])
    ensures r.filename !in Filenames(resumes) ==> Filenames(out) == Filenames(resumes) + [r.filename]
    ensures r in out
    ensures |out| == |resumes| + (if r.filename in Filenames(resumes) then 0 else 1)
  {
    match KeyIndex(resumes, r.filename)
    case Some(j) =>
      assert Filenames(resumes[j := r]) == Filenames(resumes);
      resumes[j := r]
    case None =>
      assert Filenames(resumes + [r]) == Filenames(resumes) + [r.filename];
      resumes + [r]
  }

  /** The loop that fills the `resumes` dict: one entry per listed name ending
      with `.pdf`, holding its extracted text. */
  method SelectResumes(listing: seq<string>, extract: string -> string) returns (resumes: seq<Resume>)
    ensures forall x :: x in Filenames(resumes) <==> x in listing && EndsWith(x, PDF)
    ensures Distinct(Filenames(resumes))
    ensures forall j :: 0 <= j < |resumes| ==> resumes[j].content == extract(resumes[j].filename)
    ensures Distinct(listing) ==> Filenames(resumes) == PdfEntries(listing)
  {
    resumes := [];
    var i := 0;
    while i < |listing|
      invariant i <= |listing|
      invariant forall x :: x in Filenames(resumes) <==> x in listing[..i] && EndsWith(x, PDF)
      invariant Distinct(Filenames(resumes))
      invariant forall j :: 0 <= j < |resumes| ==> resumes[j].content == extract(resumes[j].filename)
      invariant Distinct(listing) ==> Filenames(resumes) == PdfEntries(listing[..i])
    {
      var file := listing[i];
      assert listing[..i + 1] == listing[..i] + [file];
      if EndsWith(file, PDF) {
        if Distinct(listing) {
          assert file !in listing[..i];
        }
        resumes := Put(resumes, Resume(file, extract(file)));
      }
      i := i + 1;
    }
    assert listing[..i] == listing;
  }

  /** How a run ends: no résumé to rank, or the prompt sent, the reply
      received and what was filed from it. */
  datatype Outcome =
    | NoResumes
    | Ran(resumes: seq<Resume>, prompt: string, reply: string, names: seq<string>, plan: seq<Action>,
          folder: map<string, string>, warnings: seq<string>)

  /** `analyze_resumes`: the model's reply, or the empty string when the call fails. */
  function Analyze(llm: string -> Option<string>, prompt: string): (reply: string)
    ensures llm(prompt).Some? ==> reply == llm(prompt).value
    ensures llm(prompt).None? ==> reply == ""
  {
    match llm(prompt)
    case Some(text) => text
    case None => ""
  }

  /** What `os.path.exists` finds in the data folder: the listed entries. */
  function Existing(listing: seq<string>): (names: set<string>)
    ensures forall x :: x in names <==> x in listing
  {
    set x | x in listing
  }

  /** `main`: rank the résumés of the data folder, and file the shortlisted
      ones, when there are any. */
  method Shortlist(listing: seq<string>, extract: string -> string,
                   jobFile: Option<string>, keywordLines: Option<seq<string>>,
                   llm: string -> Option<string>) returns (out: Outcome)
    ensures (forall x :: x in listing ==> !EndsWith(x, PDF)) <==> out.NoResumes?
    ensures out.Ran? ==> forall x :: x in Filenames(out.resumes) <==> x in listing && EndsWith(x, PDF)
    ensures out.Ran? ==> forall j :: 0 <= j < |out.resumes| ==>
      out.resumes[j].content == extract(out.resumes[j].filename)
    ensures out.Ran? ==> var req := LoadRequirements(jobFile, keywordLines);
      out.prompt == Render(TEMPLATE, req.description, req.keywords, out.resumes)
    ensures out.Ran? ==> out.reply == Analyze(llm, out.prompt)
    ensures out.Ran? ==> out.names == ScrapeNames(out.reply)
    ensures out.Ran? ==> PlanFor(out.plan, out.names, Existing(listing))
    ensures out.Ran? ==> out.folder == Folder(out.plan) && out.warnings == Warnings(out.plan)
  {
    var resumes := SelectResumes(listing, extract);
    if resumes == [] {
      return NoResumes;
    }
    assert resumes[0].filename in Filenames(resumes);
    var req := LoadRequirements(jobFile, keywordLines);
    var prompt := BuildPrompt(req.description, req.keywords, resumes);
    var reply := Analyze(llm, prompt);
    var names, plan, folder, warnings := ParseAndSave(reply, Existing(listing));
    out := Ran(resumes, prompt, reply, names, plan, folder, warnings);
  }
}
