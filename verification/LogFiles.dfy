/** A log file and its numbered backups on disk, and what rotation keeps of them. */
module LogFiles {
  import opened SeqFacts

  /** begun tells that the writer created the file, as it does after every rotation. */
  datatype File = File(text: string, begun: bool)

  type Files = map<nat, File>

  function TextAt(files: Files, i: nat): string {
    if i in files then files[i].text else ""
  }

  /** Backup n, n - 1, down to the live file 0, one behind the other: oldest bytes first. */
  function All(files: Files, n: nat): string {
    TextAt(files, n) + if n == 0 then "" else All(files, n - 1)
  }

  lemma {:induction false} OnTop(files: Files, n: nat)
    requires n > 0
    ensures All(files, n) == TextAt(files, n) + All(files, n - 1)
    ensures n !in files ==> All(files, n) == All(files, n - 1)
  {
  }

  /** rename(i - 1, i): nothing happens when there is no file i - 1. */
  function Renamed(files: Files, i: nat): Files
    requires i > 0
  {
    if i - 1 in files then files[i := files[i - 1]] - {i - 1} else files
  }

  /** The renames from i down to 1. */
  function Down(files: Files, i: nat): Files
    decreases i
  {
    if i == 0 then files else Down(Renamed(files, i), i - 1)
  }

  function Rotated(files: Files, max: nat): Files {
    Down(files - {max}, max)
  }

  ghost predicate SameUpTo(a: Files, b: Files, n: int) {
    forall i: nat :: i <= n ==> (i in a <==> i in b) && (i in a ==> a[i] == b[i])
  }

  lemma {:induction false} AllFrame(a: Files, b: Files, n: nat)
    requires SameUpTo(a, b, n)
    ensures All(a, n) == All(b, n)
  {
    if n > 0 { AllFrame(a, b, n - 1); }
  }

  ghost predicate SameAbove(a: Files, b: Files, n: nat) {
    forall i: nat :: i > n ==> (i in a <==> i in b) && (i in a ==> a[i] == b[i])
  }

  /** The files numbered below n, oldest first. */
  function Below(files: Files, n: nat): string {
    if n == 0 then "" else All(files, n - 1)
  }

  lemma {:induction false} Split(files: Files, n: nat)
    ensures All(files, n) == TextAt(files, n) + Below(files, n)
  {
  }

  lemma {:induction false} BelowFrame(a: Files, b: Files, n: nat)
    requires SameUpTo(a, b, n - 1)
    ensures Below(a, n) == Below(b, n)
  {
    if n > 0 { AllFrame(a, b, n - 1); }
  }

  lemma {:induction false} RenamedKeeps(files: Files, i: nat)
    requires i > 0 && i !in files
    ensures var files' := Renamed(files, i); i - 1 !in files' && TextAt(files', i) + All(files', i - 1) == All(files, i)
  {
    var files' := Renamed(files, i);
    BelowFrame(files, files', i - 1);
    Split(files, i - 1);
    Split(files', i - 1);
    OnTop(files, i);
    hide All, Below;
    EmptyFirst(Below(files, i - 1));
  }

  lemma EmptyFirst(s: string)
    ensures "" + s == s
  {
  }

  /** With place i free, the renames move every file up by one and lose nothing. */
  lemma {:induction false} DownKeeps(files: Files, i: nat)
    requires i !in files
    ensures All(Down(files, i), i) == All(files, i) && 0 !in Down(files, i)
    ensures SameAbove(files, Down(files, i), i)
    decreases i
  {
    if i > 0 {
      var files' := Renamed(files, i);
      DownKeeps(files', i - 1);
      RenamedKeeps(files, i);
      OnTop(Down(files, i), i);
      hide All;
    }
  }

  /** Rotation loses exactly the oldest backup and leaves no live file. */
  lemma {:induction false} RotateKeeps(files: Files, max: nat)
    ensures All(files, max) == TextAt(files, max) + All(Rotated(files, max), max)
    ensures 0 !in Rotated(files, max)
  {
    var files' := files - {max};
    DownKeeps(files', max);
    WithoutTop(files, max);
    hide Down;
  }

  lemma {:induction false} WithoutTop(files: Files, max: nat)
    ensures All(files, max) == TextAt(files, max) + All(files - {max}, max)
  {
    var files' := files - {max};
    assert TextAt(files', max) == "";
    if max > 0 {
      AllFrame(files, files', max - 1);
      OnTop(files, max);
      OnTop(files', max);
    } else {
      assert All(files, 0) == TextAt(files, 0) + "" && All(files', 0) == "" + "";
    }
  }

  /** Every file the writer has begun is shorter than the bound. */
  ghost predicate Bounded(files: Files, bound: nat) {
    forall i: nat :: i in files && files[i].begun ==> |files[i].text| < bound
  }

  lemma {:induction false} DownBounded(files: Files, i: nat, bound: nat)
    requires Bounded(files, bound)
    ensures Bounded(Down(files, i), bound)
    decreases i
  {
    if i > 0 { DownBounded(Renamed(files, i), i - 1, bound); }
  }

  ghost predicate IsSuffix(a: string, b: string) {
    |a| <= |b| && b[|b| - |a|..] == a
  }

  lemma SuffixDrop(a: string, b: string, c: string)
    requires IsSuffix(a + b, c)
    ensures IsSuffix(b, c)
  {
    assert (a + b)[|a|..] == b;
    assert c[|c| - |b|..] == c[|c| - |a + b|..][|a|..];
  }

  lemma SuffixAppend(a: string, b: string, c: string)
    requires IsSuffix(a, b)
    ensures IsSuffix(a + c, b + c)
  {
    assert b == b[..|b| - |a|] + a;
    assert b + c == b[..|b| - |a|] + (a + c);
  }

  /** Appending to the live file appends to the whole. */
  lemma {:induction false} AllAppend(files: Files, n: nat, more: string)
    requires 0 in files
    ensures All(files[0 := File(files[0].text + more, files[0].begun)], n) == All(files, n) + more
  {
    var files' := files[0 := File(files[0].text + more, files[0].begun)];
    if n > 0 {
      AllAppend(files, n - 1, more);
      OnTop(files, n);
      OnTop(files', n);
      hide All;
      Assoc(TextAt(files, n), All(files, n - 1), more);
    }
  }

  lemma {:induction false} AllCreate(files: Files, n: nat, begun: bool)
    requires 0 !in files
    ensures All(files[0 := File("", begun)], n) == All(files, n)
  {
    if n > 0 { AllCreate(files, n - 1, begun); }
  }
}
