/** The asset licence collector: a bottom-up walk of the model directory that
    prints, for every file named exactly `license.txt`, a header naming the
    directory it sits in followed by the file's first five lines. */
module LicenseExtractor {
  import opened Wrappers

  /** A file, as the lines its iterator yields (each keeping its line break). */
  datatype File = File(name: string, lines: seq<string>)

  /** A directory, with its files and subdirectories in listing order. */
  datatype Dir = Dir(name: string, files: seq<File>, subdirs: seq<Dir>)

  const LICENSE_NAME: string := "license.txt"

  /** Lines copied from each licence. */
  const HEAD_LINES: nat := 5

  /** `get_license`: an exact, case-sensitive name match. */
  predicate IsLicense(name: string) {
    name == LICENSE_NAME
  }

  /** A licence file found by the walk, with the name of its directory. */
  datatype Match = Match(parent: string, file: File)

  /** The licence files of one directory, in listing order. */
  function Licenses(parent: string, files: seq<File>): (r: seq<Match>)
    ensures |r| <= |files|
    ensures forall k :: 0 <= k < |r| ==> IsLicense(r[k].file.name) && r[k].parent == parent
    ensures forall k :: 0 <= k < |r| ==> r[k].file in files
    decreases |files|
  {
    if |files| == 0 then []
    else (if IsLicense(files[0].name) then [Match(parent, files[0])] else []) + Licenses(parent, files[1..])
  }

  /** Every licence file of a directory is found. */
  lemma {:induction false} LicensesComplete(parent: string, files: seq<File>, f: File)
    requires f in files && IsLicense(f.name)
    ensures Match(parent, f) in Licenses(parent, files)
    decreases |files|
  {
    if files[0] != f {
      LicensesComplete(parent, files[1..], f);
    }
  }

  /** `os.walk(".", topdown=False)`: the matches of every subdirectory, in
      listing order, before those of the directory itself. `dirName` is the name
      `Path.parent.name` reports for the directory: its own name, and the
      empty string for the starting directory `.`. */
  function Walk(d: Dir, dirName: string): (r: seq<Match>)
    decreases d, 1
  {
    WalkAll(d.subdirs) + Licenses(dirName, d.files)
  }

  function WalkAll(ds: seq<Dir>): (r: seq<Match>)
    decreases ds, 0
  {
    if |ds| == 0 then [] else Walk(ds[0], ds[0].name) + WalkAll(ds[1..])
  }

  /** The matches of subdirectory `i` come as one block, after those of the
      subdirectories listed before it and before those listed after it and
      the directory's own licence. */
  lemma {:induction false} WalkAllSplit(ds: seq<Dir>, i: nat)
    requires i < |ds|
    ensures WalkAll(ds) == WalkAll(ds[..i]) + Walk(ds[i], ds[i].name) + WalkAll(ds[i + 1..])
    decreases i
  {
    if i > 0 {
      WalkAllSplit(ds[1..], i - 1);
      assert ds[1..][..i - 1] == ds[1..i];
      assert ds[..i][1..] == ds[1..i];
      assert ds[1..][i - 1 + 1..] == ds[i + 1..];
      var first, mid, at, after := Walk(ds[0], ds[0].name), WalkAll(ds[1..i]), Walk(ds[i], ds[i].name), WalkAll(ds[i + 1..]);
      assert WalkAll(ds) == first + (mid + at + after);
      assert WalkAll(ds[..i]) == first + mid;
      Regroup(first, mid, at, after);
    } else {
      assert ds[..0] == [];
      assert ds[1..] == ds[i + 1..];
    }
  }

  lemma Regroup<T>(a: seq<T>, b: seq<T>, c: seq<T>, d: seq<T>)
    ensures a + (b + c + d) == (a + b) + c + d
  {
  }

  /** Bottom-up order: everything found below subdirectory `i` precedes the
      directory's own licence. */
  lemma ChildrenBeforeParent(d: Dir, dirName: string, i: nat)
    requires i < |d.subdirs|
    ensures Walk(d, dirName) == WalkAll(d.subdirs[..i]) + Walk(d.subdirs[i], d.subdirs[i].name)
                             + WalkAll(d.subdirs[i + 1..]) + Licenses(dirName, d.files)
  {
    WalkAllSplit(d.subdirs, i);
  }

  /** A top-down walk, the reference for which files are found. */
  function TopDown(d: Dir, dirName: string): (r: seq<Match>)
    decreases d, 1
  {
    Licenses(dirName, d.files) + TopDownAll(d.subdirs)
  }

  function TopDownAll(ds: seq<Dir>): (r: seq<Match>)
    decreases ds, 0
  {
    if |ds| == 0 then [] else TopDown(ds[0], ds[0].name) + TopDownAll(ds[1..])
  }

  /** The walk finds the same licences as a top-down walk, each as often, only
      in another order: nothing is dropped or merged. */
  lemma {:induction false} WalkFindsAll(d: Dir, dirName: string)
    ensures multiset(Walk(d, dirName)) == multiset(TopDown(d, dirName))
    decreases d, 1
  {
    WalkAllFindsAll(d.subdirs);
  }

  lemma {:induction false} WalkAllFindsAll(ds: seq<Dir>)
    ensures multiset(WalkAll(ds)) == multiset(TopDownAll(ds))
    decreases ds, 0
  {
    if |ds| > 0 {
      WalkFindsAll(ds[0], ds[0].name);
      WalkAllFindsAll(ds[1..]);
    }
  }

  datatype ScriptError = StopIteration

  function Header(parent: string): string {
    "Name: " + parent + "\n"
  }

  /** The `record` list: per match its header and its first five lines;
      reading a sixth `next` past the end of a shorter file raises
      `StopIteration`, which ends the script. */
  function Records(ms: seq<Match>): (r: Result<seq<string>, ScriptError>)
    ensures r.Success? <==> forall k :: 0 <= k < |ms| ==> |ms[k].file.lines| >= HEAD_LINES
    ensures r.Success? ==> |r.value| == (HEAD_LINES + 1) * |ms|
    ensures r.Success? ==> forall k :: 0 <= k < |ms| ==> r.value[(HEAD_LINES + 1) * k] == Header(ms[k].parent)
    ensures r.Success? ==> forall k, i :: 0 <= k < |ms| && 0 <= i < HEAD_LINES ==>
      r.value[(HEAD_LINES + 1) * k + 1 + i] == ms[k].file.lines[i]
    decreases |ms|
  {
    if |ms| == 0 then Success([])
    else
      var n := |ms| - 1;
      var init :- Records(ms[..n]);
      if |ms[n].file.lines| < HEAD_LINES then Failure(StopIteration)
      else
        var r := init + [Header(ms[n].parent)] + ms[n].file.lines[..HEAD_LINES];
        assert forall k :: 0 <= k < n ==> ms[..n][k] == ms[k];
        Success(r)
  }

  function Concat(parts: seq<string>): (r: string)
    decreases |parts|
  {
    if |parts| == 0 then "" else parts[0] + Concat(parts[1..])
  }

  lemma {:induction false} ConcatAppend(a: seq<string>, b: seq<string>)
    ensures Concat(a + b) == Concat(a) + Concat(b)
    decreases |a|
  {
    if |a| > 0 {
      assert (a + b)[1..] == a[1..] + b;
      ConcatAppend(a[1..], b);
    } else {
      assert a + b == b;
    }
  }

  /** The text one match contributes: its header, then its first five lines
      unaltered. */
  function RecordText(m: Match): string
    requires |m.file.lines| >= HEAD_LINES
  {
    Header(m.parent) + Concat(m.file.lines[..HEAD_LINES])
  }

  /** The record texts of all matches, in match order, with no separator. */
  function Texts(ms: seq<Match>): string
    requires forall k :: 0 <= k < |ms| ==> |ms[k].file.lines| >= HEAD_LINES
    decreases |ms|
  {
    if |ms| == 0 then "" else Texts(ms[..|ms| - 1]) + RecordText(ms[|ms| - 1])
  }

  /** The script: walk `.`, collect the records and print their concatenation
      followed by the line break `print` adds, or stop on a short licence. */
  function Collect(root: Dir): (r: Result<string, ScriptError>)
    ensures r.Success? ==> forall k :: 0 <= k < |Walk(root, "")| ==> |Walk(root, "")[k].file.lines| >= HEAD_LINES
    ensures r.Failure? ==> !forall k :: 0 <= k < |Walk(root, "")| ==> |Walk(root, "")[k].file.lines| >= HEAD_LINES
    ensures r.Success? ==> |r.value| > 0 && r.value[|r.value| - 1] == '\n'
  {
    var record :- Records(Walk(root, ""));
    var out := Concat(record) + "\n";
    assert out[|out| - 1] == '\n';
    Success(out)
  }

  /** Joining the record list yields each match's header and five lines, one
      match after the other. */
  lemma {:induction false} RecordsJoin(ms: seq<Match>)
    requires Records(ms).Success?
    ensures Concat(Records(ms).value) == Texts(ms)
    decreases |ms|
  {
    if |ms| > 0 {
      var n := |ms| - 1;
      RecordsJoin(ms[..n]);
      var tail := [Header(ms[n].parent)] + ms[n].file.lines[..HEAD_LINES];
      RecordsSnoc(ms);
      AppendAssoc(Records(ms[..n]).value, [Header(ms[n].parent)], ms[n].file.lines[..HEAD_LINES]);
      ConcatAppend(Records(ms[..n]).value, tail);
      TailText(ms[n]);
      assert forall k :: 0 <= k < n ==> ms[..n][k] == ms[k];
    }
  }

  /** The record list of a non-empty match list extends that of all but the
      last match by the last match's record. */
  lemma RecordsSnoc(ms: seq<Match>)
    requires Records(ms).Success? && |ms| > 0
    ensures Records(ms[..|ms| - 1]).Success? && |ms[|ms| - 1].file.lines| >= HEAD_LINES
    ensures Records(ms).value == Records(ms[..|ms| - 1]).value
      + [Header(ms[|ms| - 1].parent)] + ms[|ms| - 1].file.lines[..HEAD_LINES]
  {
  }

  lemma AppendAssoc<T>(a: seq<T>, b: seq<T>, c: seq<T>)
    ensures a + b + c == a + (b + c)
  {
  }

  /** One record joins to the match's record text. */
  lemma TailText(m: Match)
    requires |m.file.lines| >= HEAD_LINES
    ensures Concat([Header(m.parent)] + m.file.lines[..HEAD_LINES]) == RecordText(m)
  {
    ConcatAppend([Header(m.parent)], m.file.lines[..HEAD_LINES]);
    assert Concat([Header(m.parent)]) == Header(m.parent) + Concat([]);
  }

  /** The printed text is the record texts of the bottom-up walk, in order,
      and a final line break. */
  lemma CollectPrints(root: Dir)
    requires Collect(root).Success?
    ensures Collect(root).value == Texts(Walk(root, "")) + "\n"
  {
    RecordsJoin(Walk(root, ""));
    assert Collect(root).value == Concat(Records(Walk(root, "")).value) + "\n";
  }

  /** A tree without licence files prints an empty line. */
  lemma NoLicenseEmptyOutput(root: Dir)
    requires Walk(root, "") == []
    ensures Collect(root).Success? && Collect(root).value == "\n"
  {
  }

  /** Only the exact, lower-case name is a licence. */
  lemma ExactNameOnly()
    ensures IsLicense("license.txt")
    ensures !IsLicense("License.txt") && !IsLicense("LICENSE.TXT") && !IsLicense("license.txt.bak")
  {
  }
}
