/** One sibling's entry in a ledger: as many of its commits and files as forty lines hold, and a
    line that says what was left out. */
module Ledger {
  import opened Wrappers
  import opened Text

  const CAP: nat := 40

  datatype Entry = Entry(
    heading: string,
    base: Option<string>,
    /** How many commits Git counts; `commits` holds the readable few of them. */
    ahead: nat,
    uncommitted: nat,
    commits: seq<string>,
    files: seq<string>,
    trouble: Option<string>
  )

  function Less(a: nat, b: nat): nat {
    if a < b then 0 else a - b
  }

  function Count(number: nat, noun: string): string {
    if number == 0 then "no " + noun + "s" else if number == 1 then "1 " + noun else Decimal(number) + " " + noun + "s"
  }

  function Summary(sibling: Entry): string {
    if sibling.base.None? then sibling.trouble.GetOr("nothing could be read about it")
    else
      Count(sibling.ahead, "commit") + " against " + sibling.base.value + ", "
      + Count(|sibling.files|, "file") + " changed, " + Count(sibling.uncommitted, "file") + " uncommitted"
  }

  /** What a shortened entry leaves out: commits by Git's count, and files. */
  function LeftOut(sibling: Entry, commits: nat, files: nat): (nat, nat) {
    (Less(sibling.ahead, commits), Less(|sibling.files|, files))
  }

  function Dropped(sibling: Entry, commits: nat, files: nat): string {
    var left := LeftOut(sibling, commits, files);
    "… the 40-line cap dropped " + Count(left.0, "commit") + " and " + Count(left.1, "file")
  }

  function Bulleted(lines: seq<string>): seq<string> {
    seq(|lines|, i requires 0 <= i < |lines| => "- " + lines[i])
  }

  function Section(title: string, lines: seq<string>, take: nat): (out: seq<string>)
    ensures take == 0 ==> out == []
    ensures 0 < take <= |lines| ==> |out| == take + 1 && out[0] == title && forall i :: 0 <= i < take ==> out[i + 1] == "- " + lines[i]
  {
    if take == 0 then [] else [title] + Bulleted(lines[..if take < |lines| then take else |lines|])
  }

  function Min(a: nat, b: nat): nat { if a < b then a else b }

  function Max(a: nat, b: nat): nat { if a < b then b else a }

  datatype Shares = Shares(commits: nat, files: nat)

  /** Half the room each, and what half the shorter list does not need goes to the longer. It
      never hands out more than there is, and leaves nothing while either list has more. */
  function Share(room: nat, commits: nat, files: nat): (s: Shares)
    ensures s.commits <= commits && s.files <= files
    ensures s.commits + s.files == Min(room, commits + files)
    ensures s.commits < commits ==> s.commits >= room / 2
    ensures s.files < files ==> s.files >= room / 2
  {
    var half := room / 2;
    var taken := Min(commits, Max(half, Less(room, files)));
    Shares(taken, Min(files, room - taken))
  }

  /** What is shown of a sibling, and whether anything is dropped. */
  datatype Shown = Shown(commits: nat, files: nat, dropping: bool)

  function Fixed(sibling: Entry): nat {
    4 + (if sibling.commits != [] then 1 else 0) + (if sibling.files != [] then 1 else 0) + 1
  }

  /** Nothing goes unsaid: what is shown and what the entry says it left out are all the files,
      and all the commits whenever Git counts no fewer than were read. Something is dropped only
      when it must be, and then neither list is left out whole. */
  function ShownOf(sibling: Entry): (shown: Shown)
    ensures shown.files + LeftOut(sibling, shown.commits, shown.files).1 == |sibling.files|
    ensures sibling.ahead >= |sibling.commits| ==>
      shown.commits + LeftOut(sibling, shown.commits, shown.files).0 == sibling.ahead
    ensures shown.commits <= |sibling.commits| && shown.files <= |sibling.files|
    ensures shown.dropping <==> shown.commits < |sibling.commits| || shown.files < |sibling.files|
    ensures shown.dropping <==> Fixed(sibling) + |sibling.commits| + |sibling.files| > CAP
    ensures sibling.commits != [] ==> shown.commits > 0
    ensures sibling.files != [] ==> shown.files > 0
  {
    var wanted := |sibling.commits| + |sibling.files|;
    if Fixed(sibling) + wanted <= CAP then Shown(|sibling.commits|, |sibling.files|, false)
    else
      var shares := Share(Less(CAP, Fixed(sibling) + 1), |sibling.commits|, |sibling.files|);
      Shown(shares.commits, shares.files, true)
  }

  method SiblingLines(sibling: Entry) returns (lines: seq<string>)
    ensures |lines| <= CAP
    ensures ShownOf(sibling).dropping ==> |lines| == CAP
    ensures
      var shown := ShownOf(sibling);
      lines == ["### " + sibling.heading, "", Summary(sibling), ""]
        + Section("commits:", sibling.commits, shown.commits) + Section("files:", sibling.files, shown.files)
        + (if shown.dropping then [Dropped(sibling, shown.commits, shown.files)] else []) + [""]
  {
    lines := ["### " + sibling.heading, "", Summary(sibling), ""];
    var labels := (if sibling.commits != [] then 1 else 0) + (if sibling.files != [] then 1 else 0);
    var wanted := |sibling.commits| + |sibling.files|;
    var fixed := |lines| + labels + 1;
    var commits, files, dropping := |sibling.commits|, |sibling.files|, false;
    if fixed + wanted > CAP {
      var shares := Share(Less(CAP, fixed + 1), |sibling.commits|, |sibling.files|);
      commits, files, dropping := shares.commits, shares.files, true;
    }
    lines := lines + Section("commits:", sibling.commits, commits);
    lines := lines + Section("files:", sibling.files, files);
    if dropping {
      lines := lines + [Dropped(sibling, commits, files)];
    }
    lines := lines + [""];
  }

  /** The line about what is left out: how many of the commits Git counts, and how many of the files, are not
      among those shown. */
  lemma DroppedSays(sibling: Entry)
    requires sibling.ahead >= |sibling.commits|
    ensures
      var shown := ShownOf(sibling);
      var (commits, files) := (sibling.ahead - shown.commits, |sibling.files| - shown.files);
      && Dropped(sibling, shown.commits, shown.files)
         == "… the 40-line cap dropped " + Count(commits, "commit") + " and " + Count(files, "file")
      && (commits > 1 ==> Count(commits, "commit") == Decimal(commits) + " commits")
      && (files > 1 ==> Count(files, "file") == Decimal(files) + " files")
  {
    hide Decimal;
  }
}
