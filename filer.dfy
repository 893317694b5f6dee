/** The copying half of `parse_and_save`: every scraped name is looked up in
    the data folder and, when present, copied into the freshly emptied
    shortlist folder under a rank-prefixed name; when absent, a warning is
    logged. The data folder is the set of names it holds, and the shortlist
    folder is a map from each file name in it to the data-folder file it was
    copied from. */
module Filer {
  import opened Text
  import opened Scrape

  /** What one step of the loop does with one scraped name. */
  datatype Action = Copy(source: string, destination: string) | Missing(name: string)

  /** `f"{i:02d}_{filename.replace(' ', '_')}"`. */
  function DestName(rank: nat, name: string): (dest: string)
    ensures ' ' !in dest
    ensures |dest| == |Pad2(rank)| + 1 + |name|
  {
    Pad2(rank) + "_" + ReplaceSpaces(name)
  }

  /** The destination is read back as its parts: the digits in front are the
      zero-padded rank, which parses back to the rank, then `_`, then the name
      with its spaces turned into underscores. */
  lemma DestNameParts(rank: nat, name: string)
    ensures var dest := DestName(rank, name);
      && LeadingDigits(dest) == Pad2(rank)
      && ParseDecimal(LeadingDigits(dest)) == rank
      && dest[|Pad2(rank)|] == '_'
      && dest[|Pad2(rank)| + 1..] == ReplaceSpaces(name)
  {
    var dest := DestName(rank, name);
    var pad := Pad2(rank);
    var tail := "_" + ReplaceSpaces(name);
    assert dest == pad + tail;
    assert dest[|pad|..] == tail;
    assert tail[0] == '_' && tail[1..] == ReplaceSpaces(name);
    LeadingDigitsOfRun(pad, tail);
    ParsePad2RoundTrip(rank);
  }

  /** Ranks below 100 take exactly two digits in front of the `_`; from 10 on
      the rank is written without a leading zero. */
  lemma DestNameRankDigits(rank: nat, name: string)
    ensures rank < 100 ==> DestName(rank, name)[..3] == [DigitChar(rank / 10), DigitChar(rank % 10), '_']
    ensures rank >= 10 ==> DestName(rank, name)[0] != '0'
  {
    Pad2Spec(rank);
    var dest := DestName(rank, name);
    assert dest == Pad2(rank) + ("_" + ReplaceSpaces(name));
  }

  /** Different ranks never give the same destination, whatever the names. */
  lemma DestNamesDiffer(i: nat, a: string, j: nat, b: string)
    requires i != j
    ensures DestName(i, a) != DestName(j, b)
  {
    DestNameParts(i, a);
    DestNameParts(j, b);
  }

  /** The step at 1-based position `rank` of the scraped list. */
  function Step(rank: nat, name: string, existing: set<string>): (a: Action)
    ensures a.Copy? <==> name in existing
    ensures a.Copy? ==> a.source == name && a.destination == DestName(rank, name)
    ensures a.Missing? ==> a.name == name
  {
    if name in existing then Copy(name, DestName(rank, name)) else Missing(name)
  }

  /** `plan` is what the loop does with `names`: one step per name, ranked by
      its 1-based position in the whole scraped list. */
  predicate PlanFor(plan: seq<Action>, names: seq<string>, existing: set<string>) {
    |plan| == |names| && forall i :: 0 <= i < |names| ==> plan[i] == Step(i + 1, names[i], existing)
  }

  /** Copies made so far, as the shortlist folder holds them: destination to source. */
  function Folder(plan: seq<Action>): map<string, string>
  {
    if plan == [] then map[]
    else
      var before := Folder(plan[..|plan| - 1]);
      match plan[|plan| - 1]
      case Copy(source, destination) => before[destination := source]
      case Missing(_) => before
  }

  /** The names a plan warns about, in order. */
  function Warnings(plan: seq<Action>): seq<string>
  {
    if plan == [] then []
    else
      var before := Warnings(plan[..|plan| - 1]);
      match plan[|plan| - 1]
      case Copy(_, _) => before
      case Missing(name) => before + [name]
  }

  /** The loop `for i, filename in enumerate(shortlisted, 1)`, starting from an
      emptied shortlist folder: the step taken for every name, the folder it
      leaves behind and the warnings it logs. */
  method SaveShortlisted(names: seq<string>, existing: set<string>)
    returns (plan: seq<Action>, folder: map<string, string>, warnings: seq<string>)
    ensures PlanFor(plan, names, existing)
    ensures folder == Folder(plan)
    ensures warnings == Warnings(plan)
  {
    plan, folder, warnings := [], map[], [];
    var i := 0;
    while i < |names|
      invariant i <= |names|
      invariant PlanFor(plan, names[..i], existing)
      invariant folder == Folder(plan)
      invariant warnings == Warnings(plan)
    {
      var filename := names[i];
      var step;
      if filename in existing {
        var dst := DestName(i + 1, filename);
        folder := folder[dst := filename];
        step := Copy(filename, dst);
      } else {
        warnings := warnings + [filename];
        step := Missing(filename);
      }
      FolderAndWarningsSnoc(plan, step);
      plan := plan + [step];
      i := i + 1;
    }
    assert names[..i] == names;
  }

  /** One more step adds at most its own file or its own warning. */
  lemma FolderAndWarningsSnoc(plan: seq<Action>, a: Action)
    ensures Folder(plan + [a]) == if a.Copy? then Folder(plan)[a.destination := a.source] else Folder(plan)
    ensures Warnings(plan + [a]) == if a.Missing? then Warnings(plan) + [a.name] else Warnings(plan)
  {
    assert (plan + [a])[..|plan|] == plan;
  }

  predicate DistinctDestinations(plan: seq<Action>) {
    forall i, j :: 0 <= i < j < |plan| && plan[i].Copy? && plan[j].Copy? ==>
      plan[i].destination != plan[j].destination
  }

  /** Every file in the folder was put there by a copy of the plan, and every
      copy of the plan left its file there. */
  lemma {:induction false} FolderFromCopies(plan: seq<Action>)
    ensures forall d :: d in Folder(plan) ==> exists k :: 0 <= k < |plan| && plan[k] == Copy(Folder(plan)[d], d)
    ensures forall k :: 0 <= k < |plan| && plan[k].Copy? ==> plan[k].destination in Folder(plan)
  {
    if plan != [] {
      var front := plan[..|plan| - 1];
      FolderFromCopies(front);
      assert forall k :: 0 <= k < |front| ==> front[k] == plan[k];
    }
  }

  /** With distinct destinations no copy overwrites another: each file holds
      what its copy sent, and every step is either a file or a warning. */
  lemma {:induction false} FolderWithoutOverwrites(plan: seq<Action>)
    requires DistinctDestinations(plan)
    ensures forall k :: 0 <= k < |plan| && plan[k].Copy? ==>
      plan[k].destination in Folder(plan) && Folder(plan)[plan[k].destination] == plan[k].source
    ensures |Folder(plan)| + |Warnings(plan)| == |plan|
  {
    if plan != [] {
      var front := plan[..|plan| - 1];
      assert forall k :: 0 <= k < |front| ==> front[k] == plan[k];
      FolderWithoutOverwrites(front);
      FolderFromCopies(front);
    }
  }

  /** Steps at different positions never share a destination, even for the
      same name. */
  lemma PlanDestinationsDistinct(plan: seq<Action>, names: seq<string>, existing: set<string>)
    requires PlanFor(plan, names, existing)
    ensures DistinctDestinations(plan)
  {
    forall i, j | 0 <= i < j < |plan| && plan[i].Copy? && plan[j].Copy?
      ensures plan[i].destination != plan[j].destination
    {
      DestNamesDiffer(i + 1, names[i], j + 1, names[j]);
    }
  }

  /** The shortlist folder after the loop: the name found at position `i`
      (1-based rank `i + 1`) is there under `DestName(i + 1, name)` exactly
      when it exists in the data folder, nothing else is there, and every
      scraped name ends up as either one file or one warning. */
  lemma SavedFolder(plan: seq<Action>, names: seq<string>, existing: set<string>)
    requires PlanFor(plan, names, existing)
    ensures forall i :: 0 <= i < |names| && names[i] in existing ==>
      DestName(i + 1, names[i]) in Folder(plan) && Folder(plan)[DestName(i + 1, names[i])] == names[i]
    ensures forall d :: d in Folder(plan) ==>
      Folder(plan)[d] in existing &&
      exists i :: 0 <= i < |names| && names[i] in existing && d == DestName(i + 1, names[i])
    ensures |Folder(plan)| + |Warnings(plan)| == |names|
  {
    PlanDestinationsDistinct(plan, names, existing);
    FolderWithoutOverwrites(plan);
    FolderFromCopies(plan);
  }

  /** A name scraped twice and present is copied twice, under different prefixes. */
  lemma RepeatedNameCopiedTwice(plan: seq<Action>, names: seq<string>, existing: set<string>, i: nat, j: nat)
    requires PlanFor(plan, names, existing)
    requires i < j < |names| && names[i] == names[j] && names[i] in existing
    ensures DestName(i + 1, names[i]) != DestName(j + 1, names[j])
    ensures DestName(i + 1, names[i]) in Folder(plan) && DestName(j + 1, names[j]) in Folder(plan)
    ensures Folder(plan)[DestName(i + 1, names[i])] == names[i]
    ensures Folder(plan)[DestName(j + 1, names[j])] == names[j]
  {
    PlanDestinationsDistinct(plan, names, existing);
    FolderWithoutOverwrites(plan);
    assert plan[i] == Step(i + 1, names[i], existing) && plan[j] == Step(j + 1, names[j], existing);
    DestNamesDiffer(i + 1, names[i], j + 1, names[j]);
  }

  /** The rank written in front of a destination. */
  function RankOf(dest: string): nat {
    ParseDecimal(LeadingDigits(dest))
  }

  /** The rank on each copy is the name's position in the whole scraped list,
      so ranks of copies strictly increase and skip the positions of missing
      names. */
  lemma CopyRanks(plan: seq<Action>, names: seq<string>, existing: set<string>)
    requires PlanFor(plan, names, existing)
    ensures forall i :: 0 <= i < |plan| && plan[i].Copy? ==> RankOf(plan[i].destination) == i + 1
    ensures forall i, j :: 0 <= i < j < |plan| && plan[i].Copy? && plan[j].Copy? ==>
      RankOf(plan[i].destination) < RankOf(plan[j].destination)
  {
    forall i | 0 <= i < |plan| && plan[i].Copy?
      ensures RankOf(plan[i].destination) == i + 1
    {
      DestNameParts(i + 1, names[i]);
    }
  }

  /** The scraped names missing from the data folder, in scraped order. */
  function Absent(names: seq<string>, existing: set<string>): seq<string>
  {
    if names == [] then []
    else
      var before := Absent(names[..|names| - 1], existing);
      var last := names[|names| - 1];
      if last in existing then before else before + [last]
  }

  /** Every occurrence of a missing name is in the list once, and nothing else is. */
  lemma {:induction false} AbsentCounts(names: seq<string>, existing: set<string>)
    ensures forall x :: multiset(Absent(names, existing))[x] == if x in existing then 0 else multiset(names)[x]
  {
    if names != [] {
      var n := |names| - 1;
      AbsentCounts(names[..n], existing);
      assert names == names[..n] + [names[n]];
      assert multiset(names) == multiset(names[..n]) + multiset{names[n]};
    }
  }

  /** The loop warns exactly for the names absent from the data folder, in
      scraped order. */
  lemma {:induction false} WarningsForMissing(plan: seq<Action>, names: seq<string>, existing: set<string>)
    requires PlanFor(plan, names, existing)
    ensures Warnings(plan) == Absent(names, existing)
  {
    if plan != [] {
      var n := |names| - 1;
      var front := plan[..n];
      assert PlanFor(front, names[..n], existing);
      WarningsForMissing(front, names[..n], existing);
      assert plan == front + [plan[n]];
      FolderAndWarningsSnoc(front, plan[n]);
      assert plan[n] == Step(n + 1, names[n], existing);
    }
  }

  /** Each occurrence of a missing name draws exactly one warning, and a name
      in the data folder draws none. */
  lemma MissingWarnedOnce(plan: seq<Action>, names: seq<string>, existing: set<string>)
    requires PlanFor(plan, names, existing)
    ensures forall x :: multiset(Warnings(plan))[x] == if x in existing then 0 else multiset(names)[x]
  {
    WarningsForMissing(plan, names, existing);
    AbsentCounts(names, existing);
  }

  /** `parse_and_save`: empty the shortlist folder, scrape the names from the
      reply, then walk them. */
  method ParseAndSave(response: string, existing: set<string>)
    returns (names: seq<string>, plan: seq<Action>, folder: map<string, string>, warnings: seq<string>)
    ensures names == ScrapeNames(response)
    ensures PlanFor(plan, names, existing)
    ensures folder == Folder(plan)
    ensures warnings == Warnings(plan)
  {
    names := ScrapeNames(response);
    plan, folder, warnings := SaveShortlisted(names, existing);
  }

  /** An empty reply, which is what a failed model call leaves, still empties
      the shortlist folder and leaves it empty, with no warning. */
  lemma EmptyReplySavesNothing(plan: seq<Action>, existing: set<string>)
    requires PlanFor(plan, ScrapeNames(""), existing)
    ensures Folder(plan) == map[] && Warnings(plan) == []
  {
    ScrapeNamesEmpty();
  }

  /** The destination of the first name, worked out. */
  lemma DestNameExample()
    ensures DestName(1, "a.pdf") == "01_a.pdf"
  {
    var r := ReplaceSpaces("a.pdf");
    assert forall k :: 0 <= k < 5 ==> r[k] == "a.pdf"[k];
    assert Decimal(1) == "1";
  }

  /** Two scraped names, the first present and the second missing: one file,
      ranked 1, and one warning. */
  lemma FirstFoundSecondMissing(plan: seq<Action>, x: string, y: string, existing: set<string>)
    requires PlanFor(plan, [x, y], existing) && x in existing && y !in existing
    ensures Folder(plan) == map[DestName(1, x) := x]
    ensures Warnings(plan) == [y]
  {
    var a := Copy(x, DestName(1, x));
    var b := Missing(y);
    assert plan[0] == a && plan[1] == b;
    assert plan == [a] + [b];
    FolderAndWarningsSnoc([a], b);
    FolderAndWarningsSnoc([], a);
    assert [] + [a] == [a];
  }

  /** Scraped names `a.pdf` then `b.pdf`, with only `a.pdf` in the data
      folder: one file, `01_a.pdf`, and one warning, for `b.pdf`. */
  lemma OneFoundOneMissing(plan: seq<Action>)
    requires PlanFor(plan, ["a.pdf", "b.pdf"], {"a.pdf"})
    ensures Folder(plan) == map["01_a.pdf" := "a.pdf"]
    ensures Warnings(plan) == ["b.pdf"]
  {
    DestNameExample();
    FirstFoundSecondMissing(plan, "a.pdf", "b.pdf", {"a.pdf"});
  }
}
