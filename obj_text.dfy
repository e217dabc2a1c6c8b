/** The text front end of the Wavefront-OBJ reader: `preprocess` cleans the raw file
    (line continuations, comments, whitespace) and `preparse` counts the records so that
    the parser can size its buffers. */
module ObjText {

  datatype Option<T> = None | Some(value: T)

  /** The per-kind tallies of `_counts`. */
  datatype Counts = Counts(positions: nat, texcoords: nat, normals: nat, triangles: nat, faces: nat)

  /** isspace in the C locale. */
  predicate IsSpace(c: char) {
    c == ' ' || c == '\t' || c == '\n' || c == '\r' || c as int == 11 || c as int == 12
  }

  /** isspace, newline excluded. */
  predicate IsBlank(c: char) { IsSpace(c) && c != '\n' }

  /** A C string: no NUL inside. */
  predicate NoNul(s: string) { forall k :: 0 <= k < |s| ==> s[k] != '\0' }

  // ---------------------------------------------------------------- preprocess

  /** The first position at or after k that is not a blank. */
  function SkipBlanks(s: string, k: nat): (r: nat)
    requires k <= |s|
    ensures k <= r <= |s|
    ensures forall j :: k <= j < r ==> IsBlank(s[j])
    ensures r < |s| ==> !IsBlank(s[r])
    decreases |s| - k
  {
    if k < |s| && IsBlank(s[k]) then SkipBlanks(s, k + 1) else k
  }

  /** The position of the first newline at or after k, or |s|. */
  function LineEnd(s: string, k: nat): (r: nat)
    requires k <= |s|
    ensures k <= r <= |s|
    ensures forall j :: k <= j < r ==> s[j] != '\n'
    ensures r < |s| ==> s[r] == '\n'
    decreases |s| - k
  {
    if k < |s| && s[k] != '\n' then LineEnd(s, k + 1) else k
  }

  /** A backslash at i followed by blanks and a newline: a line continuation. */
  predicate ContinuationAt(s: string, i: nat)
    requires i < |s|
  {
    s[i] == '\\' && SkipBlanks(s, i + 1) < |s| && s[SkipBlanks(s, i + 1)] == '\n'
  }

  /** The characters of s from i on that carry content: continuations, comments and
      whitespace removed. */
  function Visible(s: string, i: nat): string
    requires i <= |s|
    decreases |s| - i
  {
    if i == |s| then []
    else if ContinuationAt(s, i) then Visible(s, SkipBlanks(s, i + 1) + 1)
    else if s[i] == '#' then Visible(s, LineEnd(s, i))
    else if IsSpace(s[i]) then Visible(s, i + 1)
    else [s[i]] + Visible(s, i + 1)
  }

  /** One step of Visible, case by case. */
  lemma VisibleStep(s: string, i: nat)
    requires i < |s|
    ensures ContinuationAt(s, i) ==> Visible(s, i) == Visible(s, SkipBlanks(s, i + 1) + 1)
    ensures !ContinuationAt(s, i) && s[i] == '#' ==> Visible(s, i) == Visible(s, LineEnd(s, i))
    ensures !ContinuationAt(s, i) && s[i] != '#' && IsSpace(s[i]) ==> Visible(s, i) == Visible(s, i + 1)
    ensures !ContinuationAt(s, i) && s[i] != '#' && !IsSpace(s[i]) ==> Visible(s, i) == [s[i]] + Visible(s, i + 1)
  {
  }

  /** out holds, up to whitespace, exactly the visible characters of s before i. */
  ghost predicate Accounted(s: string, i: nat, out: string)
    requires i <= |s|
  {
    NonBlank(out) + Visible(s, i) == Visible(s, 0)
  }

  lemma AccountedSkip(s: string, i: nat, j: nat, out: string)
    requires i <= j <= |s| && Accounted(s, i, out) && Visible(s, i) == Visible(s, j)
    ensures Accounted(s, j, out)
  {
  }

  lemma AccountedPush(s: string, i: nat, out: string, c: char)
    requires i < |s| && Accounted(s, i, out)
    requires IsSpace(c) ==> Visible(s, i) == Visible(s, i + 1)
    requires !IsSpace(c) ==> Visible(s, i) == [c] + Visible(s, i + 1)
    ensures Accounted(s, i + 1, out + [c])
  {
    NonBlankSnoc(out, c);
    if !IsSpace(c) {
      assert NonBlank(out + [c]) + Visible(s, i + 1) == NonBlank(out) + ([c] + Visible(s, i + 1));
    }
  }

  /** The non-whitespace characters of t, in order. */
  function NonBlank(t: string): string
    decreases |t|
  {
    if t == [] then [] else NonBlank(t[..|t| - 1]) + (if IsSpace(t[|t| - 1]) then [] else [t[|t| - 1]])
  }

  function NewlineCount(t: string): nat
    decreases |t|
  {
    if t == [] then 0 else NewlineCount(t[..|t| - 1]) + (if t[|t| - 1] == '\n' then 1 else 0)
  }

  lemma NonBlankSnoc(t: string, c: char)
    ensures NonBlank(t + [c]) == NonBlank(t) + (if IsSpace(c) then [] else [c])
    ensures NewlineCount(t + [c]) == NewlineCount(t) + (if c == '\n' then 1 else 0)
  {
    assert (t + [c])[..|t|] == t;
  }

  /** `while (*next && isspace(*next) && *next != '\n') next++;` */
  method SkipBlanksFrom(s: string, k: nat) returns (next: nat)
    requires k <= |s|
    ensures next == SkipBlanks(s, k)
  {
    next := k;
    while next < |s| && IsBlank(s[next])
      invariant k <= next <= |s|
      invariant SkipBlanks(s, k) == SkipBlanks(s, next)
    {
      next := next + 1;
    }
  }

  /** `while (*in && *in != '\n') in++;` */
  method LineEndFrom(s: string, k: nat) returns (j: nat)
    requires k <= |s|
    ensures j == LineEnd(s, k)
  {
    j := k;
    while j < |s| && s[j] != '\n'
      invariant k <= j <= |s|
      invariant LineEnd(s, k) == LineEnd(s, j)
    {
      j := j + 1;
    }
  }

  /** The shape of preprocess's output: no leading newline, no empty line, no whitespace
      but single spaces and newlines, and no comment marker. */
  predicate Cleaned(t: string) {
    (t != [] ==> t[0] != '\n') &&
    (forall k :: 0 <= k < |t| ==> (IsSpace(t[k]) ==> t[k] == ' ' || t[k] == '\n') && t[k] != '#') &&
    (forall k :: 0 < k < |t| ==> !(t[k - 1] == '\n' && t[k] == '\n')) &&
    (forall k :: 0 < k < |t| ==> !(t[k - 1] == ' ' && t[k] == ' '))
  }

  lemma CleanedSnoc(t: string, c: char)
    requires Cleaned(t)
    requires c != '#' && (IsSpace(c) ==> c == ' ' || c == '\n')
    requires t == [] ==> c != '\n'
    requires t != [] ==> !(t[|t| - 1] == '\n' && c == '\n') && !(t[|t| - 1] == ' ' && c == ' ')
    ensures Cleaned(t + [c])
  {
  }

  /** What preprocess's loop keeps: out is cleaned, lineCount counts its newlines, out
      accounts for the visible text before i, and inSpace records a trailing blank. */
  ghost predicate Progress(s: string, i: nat, out: string, lineCount: nat, inSpace: bool) {
    i <= |s| && |out| <= i &&
    Cleaned(out) &&
    lineCount == NewlineCount(out) &&
    Accounted(s, i, out) &&
    (inSpace ==> out != [] && (out[|out| - 1] == ' ' || out[|out| - 1] == '\n')) &&
    (!inSpace && out != [] && out[|out| - 1] == ' ' ==> i == |s| || s[i] == '\n')
  }

  /** Skipping a stretch of input that carries nothing visible keeps the progress. */
  lemma ProgressSkip(s: string, i: nat, j: nat, out: string, lineCount: nat, inSpace: bool, inSpace': bool)
    requires Progress(s, i, out, lineCount, inSpace)
    requires i <= j <= |s| && Visible(s, i) == Visible(s, j)
    requires inSpace' ==> inSpace
    requires !inSpace' && out != [] && out[|out| - 1] == ' ' ==> j == |s| || s[j] == '\n'
    ensures Progress(s, j, out, lineCount, inSpace')
  {
    AccountedSkip(s, i, j, out);
  }

  /** Appending one output character for the input character at i keeps the progress. */
  lemma ProgressPush(s: string, i: nat, out: string, lineCount: nat, inSpace: bool, c: char, inSpace': bool)
    requires i < |s| && Progress(s, i, out, lineCount, inSpace)
    requires !ContinuationAt(s, i) && s[i] != '#'
    requires if IsSpace(s[i]) then c == ' ' || c == '\n' else c == s[i]
    requires out == [] ==> c != '\n'
    requires out != [] ==> !(out[|out| - 1] == '\n' && c == '\n') && !(out[|out| - 1] == ' ' && c == ' ')
    requires inSpace' ==> IsSpace(c)
    requires !inSpace' && c == ' ' ==> i + 1 == |s| || s[i + 1] == '\n'
    ensures Progress(s, i + 1, out + [c], lineCount + (if c == '\n' then 1 else 0), inSpace')
  {
    VisibleStep(s, i);
    AccountedPush(s, i, out, c);
    CleanedSnoc(out, c);
    NonBlankSnoc(out, c);
  }

  /** Dropping a whitespace character that would repeat the output's last separator
      keeps the progress. */
  lemma ProgressDropSpace(s: string, i: nat, out: string, lineCount: nat, inSpace: bool)
    requires i < |s| && Progress(s, i, out, lineCount, inSpace)
    requires !ContinuationAt(s, i) && s[i] != '#' && IsSpace(s[i])
    requires inSpace || out == [] || out[|out| - 1] != ' '
    ensures Progress(s, i + 1, out, lineCount, inSpace)
  {
    VisibleStep(s, i);
    ProgressSkip(s, i, i + 1, out, lineCount, inSpace, inSpace);
  }

  /** A line continuation is dropped together with the newline it escapes. */
  lemma ProgressContinuation(s: string, i: nat, next: nat, out: string, lineCount: nat, inSpace: bool)
    requires i < |s| && Progress(s, i, out, lineCount, inSpace)
    requires s[i] == '\\' && next == SkipBlanks(s, i + 1) && next < |s| && s[next] == '\n'
    ensures Progress(s, next + 1, out, lineCount, inSpace)
  {
    VisibleStep(s, i);
    ProgressSkip(s, i, next + 1, out, lineCount, inSpace, inSpace);
  }

  /** A comment is dropped up to, not including, the newline that ends it. */
  lemma ProgressComment(s: string, i: nat, j: nat, out: string, lineCount: nat, inSpace: bool)
    requires i < |s| && Progress(s, i, out, lineCount, inSpace)
    requires s[i] == '#' && j == LineEnd(s, i)
    ensures i < j && Progress(s, j, out, lineCount, false)
  {
    VisibleStep(s, i);
    ProgressSkip(s, i, j, out, lineCount, inSpace, false);
  }

  /** The text preprocess produces from s when it resumes at i with output `out` so far
      and the given in_space flag. A continuation (backslash, blanks, newline) is dropped;
      a comment is dropped up to its newline and clears in_space; a newline is copied
      unless the output is empty or already ends in one, and leaves in_space as it was;
      another whitespace character becomes one space unless in_space is set, and sets it;
      any other character is copied and clears in_space. */
  function Clean(s: string, i: nat, out: string, inSpace: bool): string
    requires i <= |s|
    decreases |s| - i
  {
    if i == |s| then out
    else if ContinuationAt(s, i) then Clean(s, SkipBlanks(s, i + 1) + 1, out, inSpace)
    else if s[i] == '#' then Clean(s, LineEnd(s, i), out, false)
    else if s[i] == '\n' then
      Clean(s, i + 1, if out != [] && out[|out| - 1] != '\n' then out + ['\n'] else out, inSpace)
    else if IsSpace(s[i]) then Clean(s, i + 1, if inSpace then out else out + [' '], true)
    else Clean(s, i + 1, out + [s[i]], false)
  }

  /** Resumed from any point the loop can reach, the finished text is cleaned, no longer
      than the input, and carries exactly the visible characters of the input. */
  lemma {:induction false} CleanKeeps(s: string, i: nat, out: string, lineCount: nat, inSpace: bool)
    requires Progress(s, i, out, lineCount, inSpace)
    ensures var r := Clean(s, i, out, inSpace); |r| <= |s| && Cleaned(r) && NonBlank(r) == Visible(s, 0)
    decreases |s| - i
  {
    if i < |s| {
      var i', out', lineCount', inSpace' := ProgressNext(s, i, out, lineCount, inSpace);
      CleanKeeps(s, i', out', lineCount', inSpace');
    }
  }

  /** One step of Clean from a reachable state reaches another reachable state. */
  lemma ProgressNext(s: string, i: nat, out: string, lineCount: nat, inSpace: bool)
    returns (i': nat, out': string, lineCount': nat, inSpace': bool)
    requires i < |s| && Progress(s, i, out, lineCount, inSpace)
    ensures i < i' <= |s| && Progress(s, i', out', lineCount', inSpace')
    ensures Clean(s, i', out', inSpace') == Clean(s, i, out, inSpace)
  {
    if ContinuationAt(s, i) {
      i', out', lineCount', inSpace' := SkipBlanks(s, i + 1) + 1, out, lineCount, inSpace;
      ProgressContinuation(s, i, SkipBlanks(s, i + 1), out, lineCount, inSpace);
    } else if s[i] == '#' {
      i', out', lineCount', inSpace' := LineEnd(s, i), out, lineCount, false;
      ProgressComment(s, i, LineEnd(s, i), out, lineCount, inSpace);
    } else {
      i' := i + 1;
      out', lineCount', inSpace' := ProgressTake(s, i, out, lineCount, inSpace);
    }
  }

  /** The whitespace and ordinary-character cases of Clean keep a reachable state. */
  lemma ProgressTake(s: string, i: nat, out: string, lineCount: nat, inSpace: bool)
    returns (out': string, lineCount': nat, inSpace': bool)
    requires i < |s| && Progress(s, i, out, lineCount, inSpace)
    requires !ContinuationAt(s, i) && s[i] != '#'
    ensures Progress(s, i + 1, out', lineCount', inSpace')
    ensures Clean(s, i + 1, out', inSpace') == Clean(s, i, out, inSpace)
  {
    out', lineCount', inSpace' := out, lineCount, inSpace;
    if s[i] == '\n' {
      if out != [] && out[|out| - 1] != '\n' {
        ProgressPush(s, i, out, lineCount, inSpace, '\n', inSpace);
        out', lineCount' := out + ['\n'], lineCount + 1;
      } else {
        ProgressDropSpace(s, i, out, lineCount, inSpace);
      }
    } else if IsSpace(s[i]) {
      if inSpace {
        ProgressDropSpace(s, i, out, lineCount, inSpace);
      } else {
        ProgressPush(s, i, out, lineCount, inSpace, ' ', true);
        out', inSpace' := out + [' '], true;
      }
    } else {
      ProgressPush(s, i, out, lineCount, inSpace, s[i], false);
      out', inSpace' := out + [s[i]], false;
    }
  }

  /** The cleaned text of a whole file: no leading or doubled newline, no doubled space,
      no whitespace but spaces and newlines, no comment marker, never longer than the
      input, its non-whitespace characters are exactly the visible ones, and they are
      separated by blanks and newlines exactly where the input separates them. */
  lemma CleanSpec(s: string)
    ensures var r := Clean(s, 0, [], false);
      |r| <= |s| && Cleaned(r) && NonBlank(r) == Visible(s, 0)
    ensures LayoutOf(Clean(s, 0, [], false)) == LayoutOf(Stripped(s, 0))
  {
    CleanKeeps(s, 0, [], 0, false);
    CleanKeepsSeparators(s);
  }

  /** The characters of s from i on with continuations and comments removed, whitespace
      left as it is. */
  function Stripped(s: string, i: nat): string
    requires i <= |s|
    decreases |s| - i
  {
    if i == |s| then []
    else if ContinuationAt(s, i) then Stripped(s, SkipBlanks(s, i + 1) + 1)
    else if s[i] == '#' then Stripped(s, LineEnd(s, i))
    else [s[i]] + Stripped(s, i + 1)
  }

  /** What separates a visible character from the one before it: nothing, blanks only,
      or whitespace that includes a newline. */
  datatype Gap = Tight | Spaced | Broken

  datatype Item = Item(gap: Gap, c: char)

  /** The visible characters of a text read so far, each with the gap before it, and the
      gap pending after the last one. Whitespace before the first visible character
      separates nothing and is not recorded. */
  datatype Layout = Layout(items: seq<Item>, pending: Gap)

  function Push(l: Layout, c: char): Layout {
    if c == '\n' then (if l.items == [] then l else l.(pending := Broken))
    else if IsSpace(c) then (if l.items == [] || l.pending == Broken then l else l.(pending := Spaced))
    else Layout(l.items + [Item(l.pending, c)], Tight)
  }

  function LayoutOf(t: string): Layout
    decreases |t|
  {
    if t == [] then Layout([], Tight) else Push(LayoutOf(t[..|t| - 1]), t[|t| - 1])
  }

  lemma LayoutSnoc(t: string, c: char)
    ensures LayoutOf(t + [c]) == Push(LayoutOf(t), c)
  {
    assert (t + [c])[..|t|] == t;
  }

  /** A text that ends in a separator absorbs a further blank, and one that ends in a
      newline absorbs a further newline. */
  lemma LayoutAbsorbs(t: string, c: char)
    requires t != [] && (t[|t| - 1] == ' ' || t[|t| - 1] == '\n')
    requires IsBlank(c) || (c == '\n' && t[|t| - 1] == '\n')
    ensures Push(LayoutOf(t), c) == LayoutOf(t)
  {
    assert t == t[..|t| - 1] + [t[|t| - 1]];
    LayoutSnoc(t[..|t| - 1], t[|t| - 1]);
  }

  /** The loop state of preprocess against the stripped input: p is the part of the
      stripped input consumed before i, out lays out like p, and inSpace records a
      trailing separator. */
  ghost predicate LaidOut(s: string, i: nat, out: string, inSpace: bool, p: string) {
    i <= |s| && p + Stripped(s, i) == Stripped(s, 0) &&
    LayoutOf(out) == LayoutOf(p) &&
    (inSpace ==> out != [] && (out[|out| - 1] == ' ' || out[|out| - 1] == '\n'))
  }

  /** Resumed from such a state, preprocess ends with the layout of the whole stripped
      input. */
  lemma {:induction false} CleanLayoutFrom(s: string, i: nat, out: string, inSpace: bool, p: string)
    requires LaidOut(s, i, out, inSpace, p)
    ensures LayoutOf(Clean(s, i, out, inSpace)) == LayoutOf(Stripped(s, 0))
    decreases |s| - i
  {
    if i == |s| {
      assert p == Stripped(s, 0);
    } else if ContinuationAt(s, i) {
      CleanLayoutFrom(s, SkipBlanks(s, i + 1) + 1, out, inSpace, p);
    } else if s[i] == '#' {
      CleanLayoutFrom(s, LineEnd(s, i), out, false, p);
    } else {
      var out', inSpace' := LayoutTake(s, i, out, inSpace, p);
      CleanLayoutFrom(s, i + 1, out', inSpace', p + [s[i]]);
    }
  }

  /** One whitespace or ordinary character: the stripped input consumed grows by it and
      the output keeps its layout. */
  lemma LayoutTake(s: string, i: nat, out: string, inSpace: bool, p: string)
    returns (out': string, inSpace': bool)
    requires i < |s| && LaidOut(s, i, out, inSpace, p)
    requires !ContinuationAt(s, i) && s[i] != '#'
    ensures LaidOut(s, i + 1, out', inSpace', p + [s[i]])
    ensures Clean(s, i + 1, out', inSpace') == Clean(s, i, out, inSpace)
  {
    assert (p + [s[i]]) + Stripped(s, i + 1) == p + Stripped(s, i);
    LayoutSnoc(p, s[i]);
    out', inSpace' := out, inSpace;
    if s[i] == '\n' {
      if out != [] && out[|out| - 1] != '\n' {
        LayoutSnoc(out, '\n');
        out' := out + ['\n'];
      } else if out != [] {
        LayoutAbsorbs(out, '\n');
      }
    } else if IsSpace(s[i]) {
      if inSpace {
        LayoutAbsorbs(out, s[i]);
      } else {
        LayoutSnoc(out, ' ');
        out', inSpace' := out + [' '], true;
      }
    } else {
      LayoutSnoc(out, s[i]);
      out', inSpace' := out + [s[i]], false;
    }
  }

  /** Preprocess keeps tokens and records apart: between any two consecutive visible
      characters, the output has whitespace exactly when the input (continuations and
      comments removed) has whitespace there, and a newline exactly when the input has
      one there; the visible characters themselves are the same and in order. */
  lemma CleanKeepsSeparators(s: string)
    ensures LayoutOf(Clean(s, 0, [], false)) == LayoutOf(Stripped(s, 0))
  {
    CleanLayoutFrom(s, 0, [], false, []);
  }

  /** Without backslashes or comment markers there is nothing to strip. */
  lemma {:induction false} StrippedPlain(s: string, i: nat)
    requires i <= |s| && forall k :: i <= k < |s| ==> s[k] != '\\' && s[k] != '#'
    ensures Stripped(s, i) == s[i..]
    decreases |s| - i
  {
    if i < |s| {
      StrippedPlain(s, i + 1);
      assert s[i..] == [s[i]] + s[i + 1..];
    }
  }

  /** Gluing tokens or records together changes the layout: neither "v1f1" nor "v 1f 1"
      is a possible cleaning of "v 1\nf 1". */
  lemma GluedLayoutDiffers()
    ensures LayoutOf("v1f1") != LayoutOf(Stripped("v 1\nf 1", 0))
    ensures LayoutOf("v 1f 1") != LayoutOf(Stripped("v 1\nf 1", 0))
  {
    var s := "v 1\nf 1";
    StrippedPlain(s, 0);
    assert s[0..] == s;
    var split := LayoutSplit();
    var glued := LayoutGlued();
    var joined := LayoutJoined();
    assert split.items[2].gap == Broken && glued.items[2].gap == Tight && joined.items[2].gap == Tight;
  }

  lemma LayoutSplit() returns (l: Layout)
    ensures l == LayoutOf("v 1\nf 1") && |l.items| == 4 && l.items[2].gap == Broken
  {
    var t: string := [];
    LayoutSnoc(t, 'v');
    t := t + ['v'];
    LayoutSnoc(t, ' ');
    t := t + [' '];
    LayoutSnoc(t, '1');
    t := t + ['1'];
    LayoutSnoc(t, '\n');
    t := t + ['\n'];
    LayoutSnoc(t, 'f');
    t := t + ['f'];
    LayoutSnoc(t, ' ');
    t := t + [' '];
    LayoutSnoc(t, '1');
    t := t + ['1'];
    assert t == "v 1\nf 1";
    l := LayoutOf(t);
  }

  lemma LayoutGlued() returns (l: Layout)
    ensures l == LayoutOf("v1f1") && |l.items| == 4 && l.items[2].gap == Tight
  {
    var t: string := [];
    LayoutSnoc(t, 'v');
    t := t + ['v'];
    LayoutSnoc(t, '1');
    t := t + ['1'];
    LayoutSnoc(t, 'f');
    t := t + ['f'];
    LayoutSnoc(t, '1');
    t := t + ['1'];
    assert t == "v1f1";
    l := LayoutOf(t);
  }

  lemma LayoutJoined() returns (l: Layout)
    ensures l == LayoutOf("v 1f 1") && |l.items| == 4 && l.items[2].gap == Tight
  {
    var t: string := [];
    LayoutSnoc(t, 'v');
    t := t + ['v'];
    LayoutSnoc(t, ' ');
    t := t + [' '];
    LayoutSnoc(t, '1');
    t := t + ['1'];
    LayoutSnoc(t, 'f');
    t := t + ['f'];
    LayoutSnoc(t, ' ');
    t := t + [' '];
    LayoutSnoc(t, '1');
    t := t + ['1'];
    assert t == "v 1f 1";
    l := LayoutOf(t);
  }

  /** in_space survives a newline: a blank before a newline is kept, and the blank that
      starts the next line is then dropped; without the earlier blank it is kept. */
  lemma CleanKeepsSpaceAcrossNewline()
    ensures Clean("a \n b", 0, [], false) == "a \nb"
    ensures Clean("a\n b", 0, [], false) == "a\n b"
  {
  }

  /** The whitespace and ordinary-character cases of preprocess's loop: one input
      character consumed, at most one output character appended. */
  method TakeChar(s: string, i: nat, out: string, lineCount: nat, inSpace: bool)
    returns (out': string, lineCount': nat, inSpace': bool)
    requires i < |s| && !ContinuationAt(s, i) && s[i] != '#'
    requires lineCount == NewlineCount(out)
    ensures Clean(s, i + 1, out', inSpace') == Clean(s, i, out, inSpace)
    ensures lineCount' == NewlineCount(out')
    ensures s[i] == '\n' ==>
      inSpace' == inSpace && out' == (if out != [] && out[|out| - 1] != '\n' then out + ['\n'] else out)
    ensures IsBlank(s[i]) ==> inSpace' && out' == if inSpace then out else out + [' ']
    ensures !IsSpace(s[i]) ==> !inSpace' && out' == out + [s[i]]
  {
    out', lineCount', inSpace' := out, lineCount, inSpace;
    if IsSpace(s[i]) {
      if s[i] == '\n' {
        if out != [] && out[|out| - 1] != '\n' {
          out' := out + ['\n'];
          lineCount' := lineCount + 1;
          NonBlankSnoc(out, '\n');
        }
      } else if !inSpace {
        out' := out + [' '];
        inSpace' := true;
        NonBlankSnoc(out, ' ');
      }
    } else {
      inSpace' := false;
      out' := out + [s[i]];
      NonBlankSnoc(out, s[i]);
    }
  }

  /** One iteration of preprocess's loop: a continuation, a comment, or one character. */
  method Step(s: string, i: nat, out: string, lineCount: nat, inSpace: bool)
    returns (i': nat, out': string, lineCount': nat, inSpace': bool)
    requires i < |s| && lineCount == NewlineCount(out)
    ensures i < i' <= |s|
    ensures Clean(s, i', out', inSpace') == Clean(s, i, out, inSpace)
    ensures lineCount' == NewlineCount(out')
  {
    if s[i] == '\\' {
      var next := SkipBlanksFrom(s, i + 1);
      if next < |s| && s[next] == '\n' {
        return next + 1, out, lineCount, inSpace;
      }
    }
    if s[i] == '#' {
      var j := LineEndFrom(s, i);
      return j, out, lineCount, false;
    }
    out', lineCount', inSpace' := TakeChar(s, i, out, lineCount, inSpace);
    i' := i + 1;
  }

  /** preprocess: NULL in, NULL out; otherwise the cleaned text and its newline count.
      The continuation test runs first, then the comment test, then the whitespace test. */
  method Preprocess(input: Option<string>) returns (output: Option<string>, lineCount: nat)
    requires input.Some? ==> NoNul(input.value)
    ensures input.None? <==> output.None?
    ensures output.Some? ==> output.value == Clean(input.value, 0, [], false)
    ensures output.Some? ==> |output.value| <= |input.value|
    ensures output.Some? ==> Cleaned(output.value)
    ensures output.Some? ==> lineCount == NewlineCount(output.value)
    ensures output.Some? ==> NonBlank(output.value) == Visible(input.value, 0)
    ensures output.Some? ==> LayoutOf(output.value) == LayoutOf(Stripped(input.value, 0))
  {
    if input.None? {
      return None, 0;
    }
    var s := input.value;
    var out: string := [];
    var i := 0;
    var inSpace := false;
    lineCount := 0;
    while i < |s|
      invariant i <= |s| && lineCount == NewlineCount(out)
      invariant Clean(s, i, out, inSpace) == Clean(s, 0, [], false)
      decreases |s| - i
    {
      i, out, lineCount, inSpace := Step(s, i, out, lineCount, inSpace);
    }
    CleanSpec(s);
    output := Some(out);
  }

  // ---------------------------------------------------------------- preparse

  /** The first position at or after k that is not whitespace (newlines included). */
  function SkipSpace(s: string, k: nat): (r: nat)
    requires k <= |s|
    ensures k <= r <= |s|
    ensures forall j :: k <= j < r ==> IsSpace(s[j])
    ensures r < |s| ==> !IsSpace(s[r])
    decreases |s| - k
  {
    if k < |s| && IsSpace(s[k]) then SkipSpace(s, k + 1) else k
  }

  /** The position just after the newline that ends the line at k (or |s|). */
  function NextLine(s: string, k: nat): (r: nat)
    requires k <= |s|
    ensures k <= r <= |s|
  {
    var e := LineEnd(s, k);
    if e < |s| then e + 1 else e
  }

  /** strncmp(s + k, p, |p|) == 0. */
  predicate StartsWith(s: string, k: nat, p: string) {
    k + |p| <= |s| && s[k..k + |p|] == p
  }

  lemma StartsWithHead(s: string, k: nat, p: string)
    ensures StartsWith(s, k, p) && |p| > 0 ==> s[k] == p[0]
  {
    if StartsWith(s, k, p) && |p| > 0 {
      assert s[k..k + |p|][0] == s[k];
    }
  }

  /** Positions in [lo, hi) where a whitespace-separated token starts. */
  function Runs(s: string, lo: nat, hi: nat): nat
    requires lo <= hi <= |s|
    decreases hi - lo
  {
    if hi == lo then 0
    else Runs(s, lo, hi - 1) + (if !IsSpace(s[hi - 1]) && (hi - 1 == lo || IsSpace(s[hi - 2])) then 1 else 0)
  }

  /** The starts (after leading whitespace) of the k lines preparse visits from pos. */
  function Visits(s: string, pos: nat, k: nat): (r: seq<nat>)
    requires pos <= |s|
    ensures |r| == k
    ensures forall j :: 0 <= j < k ==> r[j] <= |s|
    decreases k
  {
    if k == 0 then []
    else
      var start := SkipSpace(s, pos);
      [start] + Visits(s, NextLine(s, start), k - 1)
  }

  /** Number of vertex tokens on the face line that starts at st ("f " included). */
  function FaceVerts(s: string, st: nat): nat
    requires st + 2 <= |s|
  {
    Runs(s, st + 2, LineEnd(s, st + 2))
  }

  predicate IsFace(s: string, st: nat) { StartsWith(s, st, "f ") }

  /** What preparse adds to the counters for the line that starts at st: each line adds
      to at most one kind, and a face with n >= 3 vertex tokens adds n - 2 triangles. */
  function Classify(s: string, st: nat, c: Counts): Counts {
    if StartsWith(s, st, "v ") then c.(positions := c.positions + 1)
    else if StartsWith(s, st, "vt ") then c.(texcoords := c.texcoords + 1)
    else if StartsWith(s, st, "vn ") then c.(normals := c.normals + 1)
    else if IsFace(s, st) then
      var n := FaceVerts(s, st);
      c.(faces := c.faces + 1, triangles := c.triangles + (if n >= 3 then n - 2 else 0))
    else c
  }

  /** The counters after visiting the line starts `sts` from `c`. */
  function Tally(s: string, sts: seq<nat>, c: Counts): Counts
    decreases |sts|
  {
    if sts == [] then c else Classify(s, sts[|sts| - 1], Tally(s, sts[..|sts| - 1], c))
  }

  /** The vertex maximum after the line at st: raised only by a face of >= 3 tokens. */
  function RaiseMax(s: string, st: nat, m: int): int {
    if IsFace(s, st) && FaceVerts(s, st) >= 3 && FaceVerts(s, st) > m then FaceVerts(s, st) else m
  }

  /** The largest vertex count among the visited faces with at least three vertices. */
  function MaxFaceVerts(s: string, sts: seq<nat>, m: int): int
    decreases |sts|
  {
    if sts == [] then m else RaiseMax(s, sts[|sts| - 1], MaxFaceVerts(s, sts[..|sts| - 1], m))
  }

  lemma TallySnoc(s: string, sts: seq<nat>, st: nat, c: Counts, m: int)
    ensures Tally(s, sts + [st], c) == Classify(s, st, Tally(s, sts, c))
    ensures MaxFaceVerts(s, sts + [st], m) == RaiseMax(s, st, MaxFaceVerts(s, sts, m))
  {
    assert (sts + [st])[..|sts|] == sts;
  }

  /** When no visited face has three or more tokens the maximum keeps its start value. */
  lemma {:induction false} MaxFaceVertsOnlyTriangles(s: string, sts: seq<nat>, m: int)
    requires forall k :: 0 <= k < |sts| && IsFace(s, sts[k]) ==> FaceVerts(s, sts[k]) < 3
    ensures MaxFaceVerts(s, sts, m) == m
    decreases |sts|
  {
    if sts != [] {
      MaxFaceVertsOnlyTriangles(s, sts[..|sts| - 1], m);
    }
  }

  function KindTotal(c: Counts): nat { c.positions + c.texcoords + c.normals + c.faces }

  /** Every visited line adds to at most one of the four kinds. */
  lemma {:induction false} TallyKindsBounded(s: string, sts: seq<nat>, c: Counts)
    ensures KindTotal(Tally(s, sts, c)) <= KindTotal(c) + |sts|
    ensures Tally(s, sts, c).triangles >= c.triangles
    decreases |sts|
  {
    if sts != [] {
      TallyKindsBounded(s, sts[..|sts| - 1], c);
    }
  }

  /** A face that counts triangles is at least a triangle and raises the maximum to its
      vertex count; no face with fewer than three tokens ever does. */
  lemma {:induction false} MaxFaceVertsBound(s: string, sts: seq<nat>, m: int, k: nat)
    requires k < |sts| && IsFace(s, sts[k]) && FaceVerts(s, sts[k]) >= 3
    ensures MaxFaceVerts(s, sts, m) >= FaceVerts(s, sts[k])
    decreases |sts|
  {
    if k < |sts| - 1 {
      MaxFaceVertsBound(s, sts[..|sts| - 1], m, k);
      MaxFaceVertsMonotone(s, sts, m);
    }
  }

  /** The maximum is attained: it is the start value or the vertex count of some
      visited face with at least three tokens. */
  lemma {:induction false} MaxFaceVertsAttained(s: string, sts: seq<nat>, m: int)
    ensures MaxFaceVerts(s, sts, m) == m ||
      exists k :: 0 <= k < |sts| && IsFace(s, sts[k]) && FaceVerts(s, sts[k]) >= 3 &&
        MaxFaceVerts(s, sts, m) == FaceVerts(s, sts[k])
    decreases |sts|
  {
    if sts != [] {
      var front := sts[..|sts| - 1];
      var last := |sts| - 1;
      MaxFaceVertsAttained(s, front, m);
      if MaxFaceVerts(s, sts, m) != MaxFaceVerts(s, front, m) {
        assert MaxFaceVerts(s, sts, m) == FaceVerts(s, sts[last]);
      } else if MaxFaceVerts(s, front, m) != m {
        var k :| 0 <= k < |front| && IsFace(s, front[k]) && FaceVerts(s, front[k]) >= 3 &&
          MaxFaceVerts(s, front, m) == FaceVerts(s, front[k]);
        assert sts[k] == front[k];
      }
    }
  }

  lemma MaxFaceVertsMonotone(s: string, sts: seq<nat>, m: int)
    requires sts != []
    ensures MaxFaceVerts(s, sts, m) >= MaxFaceVerts(s, sts[..|sts| - 1], m)
  {
  }

  /** Visiting k lines is a prefix of visiting more. */
  lemma {:induction false} VisitsPrefix(s: string, pos: nat, k: nat, n: nat)
    requires pos <= |s| && k <= n
    ensures Visits(s, pos, k) == Visits(s, pos, n)[..k]
    decreases k
  {
    if k > 0 {
      var start := SkipSpace(s, pos);
      VisitsPrefix(s, NextLine(s, start), k - 1, n - 1);
    }
  }

  /** One more visited line: the start after pos joins the visited prefix. */
  lemma VisitsStep(s: string, n: nat, i: nat, pos: nat)
    requires i < n && pos <= |s|
    requires Visits(s, 0, n) == Visits(s, 0, i) + Visits(s, pos, n - i)
    ensures Visits(s, 0, i + 1) == Visits(s, 0, i) + [SkipSpace(s, pos)]
    ensures Visits(s, 0, n) == Visits(s, 0, i + 1) + Visits(s, NextLine(s, SkipSpace(s, pos)), n - i - 1)
  {
    var st := SkipSpace(s, pos);
    assert Visits(s, pos, n - i) == [st] + Visits(s, NextLine(s, st), n - i - 1);
    VisitsPrefix(s, 0, i + 1, n);
    VisitsPrefix(s, 0, i, n);
    assert Visits(s, 0, n)[..i + 1] == Visits(s, 0, i) + [st];
  }

  /** Preparse's loop state after i of n lines: the lines not yet visited start at
      pos, and the counters hold the tally of the visited ones. */
  ghost predicate Preparsed(s: string, n: nat, i: nat, pos: nat, c: Counts, m: int, c0: Counts, m0: int) {
    i <= n && pos <= |s| &&
    Visits(s, 0, n) == Visits(s, 0, i) + Visits(s, pos, n - i) &&
    c == Tally(s, Visits(s, 0, i), c0) &&
    m == MaxFaceVerts(s, Visits(s, 0, i), m0)
  }

  /** Visiting the line at pos moves preparse's loop state one line on. */
  lemma PreparsedStep(s: string, n: nat, i: nat, pos: nat, c: Counts, m: int, c0: Counts, m0: int)
    requires i < n && Preparsed(s, n, i, pos, c, m, c0, m0)
    ensures var st := SkipSpace(s, pos);
      Preparsed(s, n, i + 1, NextLine(s, st), Classify(s, st, c), RaiseMax(s, st, m), c0, m0)
  {
    var st := SkipSpace(s, pos);
    VisitsStep(s, n, i, pos);
    TallySnoc(s, Visits(s, 0, i), st, c0, m0);
  }

  /** With every line visited, the state is the tally of all of them. */
  lemma PreparsedDone(s: string, n: nat, pos: nat, c: Counts, m: int, c0: Counts, m0: int)
    requires Preparsed(s, n, n, pos, c, m, c0, m0)
    ensures c == Tally(s, Visits(s, 0, n), c0) && m == MaxFaceVerts(s, Visits(s, 0, n), m0)
  {
  }

  /** `_parser`: the cleaned text, its line count, and the counters preparse fills in. */
  class Parser {
    var lines: string
    var lineCount: int
    var maxVerts: int
    var maxCounts: Counts

    /** `_parser parser = {0}` with the preprocessed text filled in. */
    constructor (lines: string, lineCount: int)
      ensures this.lines == lines && this.lineCount == lineCount
      ensures maxVerts == 0 && maxCounts == Counts(0, 0, 0, 0, 0)
    {
      this.lines := lines;
      this.lineCount := lineCount;
      maxVerts := 0;
      maxCounts := Counts(0, 0, 0, 0, 0);
    }

    /** The token-counting loop of preparse for the face line whose tokens start at lo. */
    static method CountFaceVerts(s: string, lo: nat) returns (verts: nat)
      requires lo <= |s|
      ensures verts == Runs(s, lo, LineEnd(s, lo))
    {
      var start := lo;
      verts := 0;
      while start < |s| && s[start] != '\n'
        invariant lo <= start <= LineEnd(s, lo)
        invariant verts == Runs(s, lo, start)
        invariant start == lo || start == |s| || IsSpace(s[start - 1]) || IsSpace(s[start])
        decreases |s| - start
      {
        if !IsSpace(s[start]) {
          verts := verts + 1;
          start := start + 1;
          while start < |s| && !IsSpace(s[start])
            invariant lo < start <= LineEnd(s, lo)
            invariant verts == Runs(s, lo, start)
            invariant !IsSpace(s[start - 1])
            decreases |s| - start
          {
            start := start + 1;
          }
        } else {
          start := start + 1;
        }
      }
    }

    /** `while (isspace(*line)) line++;` */
    static method SkipSpaceFrom(s: string, pos: nat) returns (line: nat)
      requires pos <= |s|
      ensures line == SkipSpace(s, pos)
    {
      line := pos;
      while line < |s| && IsSpace(s[line])
        invariant pos <= line <= |s|
        invariant SkipSpace(s, line) == SkipSpace(s, pos)
      {
        line := line + 1;
      }
    }

    /** Skip to the end of the line and past its newline. */
    static method NextLineFrom(s: string, st: nat) returns (line: nat)
      requires st <= |s|
      ensures line == NextLine(s, st)
    {
      line := st;
      while line < |s| && s[line] != '\n'
        invariant st <= line <= |s|
        invariant LineEnd(s, st) == LineEnd(s, line)
      {
        line := line + 1;
      }
      if line < |s| {
        line := line + 1;
      }
    }

    /** The if-chain of preparse for the line whose first non-space character is at st. */
    method CountLine(st: nat)
      requires st <= |lines|
      modifies this
      ensures lines == old(lines) && lineCount == old(lineCount)
      ensures maxCounts == Classify(lines, st, old(maxCounts))
      ensures maxVerts == RaiseMax(lines, st, old(maxVerts))
    {
      StartsWithHead(lines, st, "f ");
      if StartsWith(lines, st, "v ") {
        maxCounts := maxCounts.(positions := maxCounts.positions + 1);
      } else if StartsWith(lines, st, "vt ") {
        maxCounts := maxCounts.(texcoords := maxCounts.texcoords + 1);
      } else if StartsWith(lines, st, "vn ") {
        maxCounts := maxCounts.(normals := maxCounts.normals + 1);
      } else if StartsWith(lines, st, "f ") {
        maxCounts := maxCounts.(faces := maxCounts.faces + 1);
        var verts := CountFaceVerts(lines, st + 2);
        if verts >= 3 {
          maxCounts := maxCounts.(triangles := maxCounts.triangles + (verts - 2));
          if verts > maxVerts {
            maxVerts := verts;
          }
        }
      }
    }

    /** preparse: visit lineCount lines, each from its first non-whitespace character,
        and count vertex, texture-coordinate, normal and face records. */
    method Preparse()
      modifies this
      ensures lines == old(lines) && lineCount == old(lineCount)
      ensures var sts := Visits(lines, 0, if lineCount > 0 then lineCount else 0);
        maxCounts == Tally(lines, sts, old(maxCounts)) &&
        maxVerts == MaxFaceVerts(lines, sts, old(maxVerts))
    {
      var s := lines;
      var line: nat := 0;
      var n: nat := if lineCount > 0 then lineCount else 0;
      var i: nat := 0;
      while i < lineCount
        invariant Preparsed(s, n, i, line, maxCounts, maxVerts, old(maxCounts), old(maxVerts))
        invariant lines == s && lineCount == old(lineCount)
      {
        PreparsedStep(s, n, i, line, maxCounts, maxVerts, old(maxCounts), old(maxVerts));
        var st := SkipSpaceFrom(s, line);
        CountLine(st);
        line := NextLineFrom(s, st);
        i := i + 1;
      }
      PreparsedDone(s, n, line, maxCounts, maxVerts, old(maxCounts), old(maxVerts));
    }
  }
}
