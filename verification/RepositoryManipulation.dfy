/** The repository change simulator: every operation is checked against the simulated files and
    directories, and either becomes a change of that state or a conflict. */
module RepositoryManipulation {
  import opened Text
  import opened Ordering

  /** A normalised path as its slash-separated components; the empty sequence is the repository root. */
  type Path = seq<string>

  datatype Kind = CreateFile | ModifyFile | DeleteFile | RenameFile | MoveFile | CreateDirectory | DeleteDirectory

  datatype Operation = Operation(
    id: string, kind: Kind, path: string, destination: Option<string>, allowOverwrite: bool, recursive: bool)

  datatype ConflictKind =
    | PathAlreadyExists | PathNotFound | DestinationAlreadyExists | DestinationParentMissing
    | PathTraversal | InvalidPath | DirectoryNotEmpty | MissingDestination

  datatype Conflict = Conflict(operationId: string, kind: ConflictKind)

  datatype Change = Change(
    operationId: string, kind: Kind, path: Path, destination: Option<Path>,
    createsPath: bool, removesPath: bool, modifiesPath: bool)

  datatype Outcome = Accepted(change: Change) | Rejected(conflict: Conflict)

  datatype State = State(files: set<Path>, dirs: set<Path>)

  // ---------------------------------------------------------------- paths

  predicate IsSlash(c: char) {
    c == '/'
  }

  function NormalisePath(raw: string): (r: Option<Path>)
    ensures r.Some? ==> r.value != []
  {
    if IsBlank(raw) then None
    else
      var trimmed := TrimRight(TrimLeft(ReplaceChar(Strip(raw), '\\', '/'), IsSlash), IsSlash);
      if trimmed == "" then None else Some(Split(trimmed, '/'))
  }

  /** The components that a path library keeps: empty ones and "." disappear. */
  function Meaningful(p: Path): (r: Path) {
    if p == [] then []
    else
      var init := Meaningful(p[..|p| - 1]);
      var last := p[|p| - 1];
      if last == "" || last == "." then init else init + [last]
  }

  predicate IsAnySlash(c: char) {
    c == '/' || c == '\\'
  }

  lemma SlashesAreSlashes(s: string)
    requires AllOf(s, IsAnySlash)
    ensures AllOf(ReplaceChar(s, '\\', '/'), IsSlash)
  {
  }

  lemma SlashesGo(l: string, b: string, t: string)
    requires AllOf(l, IsSlash) && AllOf(t, IsSlash) && b != "" && b[0] != '/' && b[|b| - 1] != '/'
    ensures TrimRight(TrimLeft(l + b + t, IsSlash), IsSlash) == b
  {
    assert l + b + t == l + (b + t);
    TrimLeftOf(l, b + t, IsSlash);
    TrimRightOf(b, t, IsSlash);
  }

  lemma SlashesTrimmed(lead: string, body: string, tail: string)
    requires AllOf(lead, IsAnySlash) && AllOf(tail, IsAnySlash)
    requires body != "" && !IsAnySlash(body[0]) && !IsAnySlash(body[|body| - 1])
    ensures TrimRight(TrimLeft(ReplaceChar(lead + body + tail, '\\', '/'), IsSlash), IsSlash) == ReplaceChar(body, '\\', '/')
  {
    ReplaceConcat(lead + body, tail, '\\', '/');
    ReplaceConcat(lead, body, '\\', '/');
    SlashesAreSlashes(lead);
    SlashesAreSlashes(tail);
    SlashesGo(ReplaceChar(lead, '\\', '/'), ReplaceChar(body, '\\', '/'), ReplaceChar(tail, '\\', '/'));
  }

  lemma TrimmedPath(before: string, text: string, after: string)
    requires IsBlank(before) && IsBlank(after) && text != "" && !IsSpace(text[0]) && !IsSpace(text[|text| - 1])
    ensures !IsBlank(before + text + after) && Strip(before + text + after) == text
  {
    StripOf(before, text, after);
    BlankIsStripped(before + text + after);
  }

  /** Around a path white space goes, then slashes of either kind; inside it backslashes become slashes, which
      separate its components. */
  lemma NormalisedPathIs(before: string, lead: string, body: string, tail: string, after: string)
    requires IsBlank(before) && IsBlank(after) && AllOf(lead, IsAnySlash) && AllOf(tail, IsAnySlash)
    requires body != "" && !IsAnySlash(body[0]) && !IsAnySlash(body[|body| - 1])
    requires !IsSpace((lead + body)[0]) && !IsSpace((body + tail)[|body + tail| - 1])
    ensures var r := NormalisePath(before + (lead + body + tail) + after);
      && r.Some? && Written(r.value) == ReplaceChar(body, '\\', '/')
      && forall i :: 0 <= i < |r.value| ==> '/' !in r.value[i]
  {
    var text, b := lead + body + tail, ReplaceChar(body, '\\', '/');
    assert text[0] == (lead + body)[0] && text[|text| - 1] == (body + tail)[|body + tail| - 1];
    TrimmedPath(before, text, after);
    SlashesTrimmed(lead, body, tail);
    JoinSplit(b, '/');
  }

  /** Nothing but white space around slashes is no path. */
  lemma NoPathIs(before: string, slashes: string, after: string)
    requires IsBlank(before) && IsBlank(after) && AllOf(slashes, IsAnySlash)
    ensures NormalisePath(before + slashes + after).None?
  {
    var raw, l := before + slashes + after, ReplaceChar(slashes, '\\', '/');
    StripOf(before, slashes, after);
    TrimLeftOf(l, "", IsSlash);
    TrimRightOf("", "", IsSlash);
    assert l + "" == l && "" + "" == "";
  }

  ghost function MeaningfulAt(p: Path): (kept: nat -> bool) {
    (i: nat) => i < |p| && p[i] != "" && p[i] != "."
  }

  lemma {:induction false} MeaningfulUpTo(p: Path, n: nat)
    requires n <= |p|
    ensures Meaningful(p[..n]) == At(p, Places(n, MeaningfulAt(p)))
  {
    if n > 0 {
      MeaningfulUpTo(p, n - 1);
      assert p[..n][..n - 1] == p[..n - 1];
    }
  }

  /** A path's parent directory: its meaningful components but for the last. */
  lemma ParentIs(p: Path) returns (places: seq<nat>)
    ensures ArePlaces(places, |p|, MeaningfulAt(p))
    ensures ParentDir(p) == if places == [] then [] else At(p, places[..|places| - 1])
  {
    places := Places(|p|, MeaningfulAt(p));
    PlacesAre(|p|, MeaningfulAt(p));
    MeaningfulUpTo(p, |p|);
    assert p[..|p|] == p;
  }

  function ParentDir(p: Path): (r: Path) {
    var m := Meaningful(p);
    if m == [] then [] else m[..|m| - 1]
  }

  /** p lies strictly under dir: the string form starts with dir followed by a slash. */
  predicate Under(dir: Path, p: Path) {
    |dir| < |p| && p[..|dir|] == dir
  }

  /** A path read as text. */
  function Written(p: Path): (r: string) {
    Join(p, '/')
  }

  /** Lying under a directory is the text test that the simulator makes. */
  lemma {:induction false} UnderIsTextPrefix(dir: Path, p: Path)
    requires dir != [] && p != []
    requires forall i :: 0 <= i < |dir| ==> '/' !in dir[i]
    requires forall i :: 0 <= i < |p| ==> '/' !in p[i]
    ensures Under(dir, p) <==> Written(dir) + "/" <= Written(p)
  {
    var text := Written(p);
    if Written(dir) + "/" <= text {
      var rest := text[|Written(dir)| + 1..];
      assert text == Written(dir) + ['/'] + rest;
      SplitJoin(p, '/');
      SplitTextAfter(dir, rest);
      assert p == dir + Split(rest, '/');
    }
    if Under(dir, p) {
      assert p == dir + p[|dir|..];
      JoinConcat(dir, p[|dir|..], '/');
    }
  }

  lemma SplitFirst(first: string, later: string, tail: Path, rest: seq<string>)
    requires '/' !in first && Split(later, '/') == tail + rest
    ensures Split(first + ['/'] + later, '/') == [first] + tail + rest
  {
    SplitAfter(first, '/', later);
    assert [first] + (tail + rest) == [first] + tail + rest;
  }

  lemma {:induction false} SplitTextAfter(dir: Path, rest: string)
    requires dir != [] && forall i :: 0 <= i < |dir| ==> '/' !in dir[i]
    ensures Split(Written(dir) + ['/'] + rest, '/') == dir + Split(rest, '/')
  {
    if |dir| == 1 {
      SplitAfter(dir[0], '/', rest);
    } else {
      var later := Written(dir[1..]) + ['/'] + rest;
      SplitTextAfter(dir[1..], rest);
      SplitFirst(dir[0], later, dir[1..], Split(rest, '/'));
      assert Written(dir) + ['/'] + rest == dir[0] + ['/'] + later;
      assert dir == [dir[0]] + dir[1..];
    }
  }

  /** A directory together with every directory that leads to it. */
  function WithParents(dir: Path): (r: set<Path>) {
    set k | 1 <= k <= |dir| :: dir[..k]
  }

  // ---------------------------------------------------------------- one operation

  predicate Directory(kind: Kind) {
    kind == CreateDirectory || kind == DeleteDirectory
  }

  function Place(s: State, kind: Kind): (r: set<Path>) {
    if Directory(kind) then s.dirs else s.files
  }

  predicate HasContents(s: State, dir: Path) {
    (exists f :: f in s.files && Under(dir, f)) || (exists d :: d in s.dirs && Under(dir, d))
  }

  predicate ParentMissing(s: State, p: Path) {
    ParentDir(p) != [] && ParentDir(p) !in s.dirs
  }

  /** Why an operation whose path is usable is refused, if it is. */
  function Refusal(safe: Path -> bool, s: State, op: Operation, p: Path): (r: Option<ConflictKind>) {
    match op.kind
    case CreateFile =>
      if p in s.files && !op.allowOverwrite then Some(PathAlreadyExists)
      else if ParentMissing(s, p) then Some(DestinationParentMissing)
      else None
    case ModifyFile => if p !in s.files then Some(PathNotFound) else None
    case DeleteFile => if p !in s.files then Some(PathNotFound) else None
    case CreateDirectory => if p in s.dirs then Some(PathAlreadyExists) else None
    case DeleteDirectory =>
      if p !in s.dirs then Some(PathNotFound)
      else if HasContents(s, p) && !op.recursive then Some(DirectoryNotEmpty)
      else None
    case _ =>
      if op.destination.None? || IsBlank(op.destination.value) then Some(MissingDestination)
      else
        var d := NormalisePath(op.destination.value);
        if d.None? then Some(InvalidPath)
        else if !safe(d.value) then Some(PathTraversal)
        else if p !in s.files then Some(PathNotFound)
        else if d.value in s.files then Some(DestinationAlreadyExists)
        else if ParentMissing(s, d.value) then Some(DestinationParentMissing)
        else None
  }

  function RefusalOf(safe: Path -> bool, s: State, op: Operation): (r: Option<ConflictKind>) {
    var p := NormalisePath(op.path);
    if p.None? then Some(InvalidPath)
    else if !safe(p.value) then Some(PathTraversal)
    else Refusal(safe, s, op, p.value)
  }

  predicate Moves(kind: Kind) {
    kind == RenameFile || kind == MoveFile
  }

  /** The change an accepted operation promises. */
  function ChangeFor(safe: Path -> bool, s: State, op: Operation): (r: Change)
    requires RefusalOf(safe, s, op).None?
  {
    var p := NormalisePath(op.path).value;
    var existed := op.kind == CreateFile && p in s.files;
    Change(op.id, op.kind, p, if Moves(op.kind) then NormalisePath(op.destination.value) else None,
           Moves(op.kind) || op.kind == CreateDirectory || (op.kind == CreateFile && !existed),
           Moves(op.kind) || op.kind == DeleteFile || op.kind == DeleteDirectory,
           op.kind == ModifyFile || existed)
  }

  /** What a change does to the state, read off the change alone. */
  function Apply(s: State, c: Change): (r: State) {
    match c.kind
    case CreateFile => s.(files := s.files + {c.path})
    case ModifyFile => s
    case DeleteFile => s.(files := s.files - {c.path})
    case CreateDirectory => s.(dirs := s.dirs + WithParents(c.path))
    case DeleteDirectory =>
      State(set f | f in s.files && !Under(c.path, f), set d | d in s.dirs && d != c.path && !Under(c.path, d))
    case _ => if c.destination.Some? then s.(files := s.files - {c.path} + {c.destination.value}) else s
  }

  /** The answer and the state after it, given what speaks against the operation. */
  ghost predicate Decided(safe: Path -> bool, before: State, op: Operation, why: Option<ConflictKind>,
                          outcome: Outcome, after: State)
    requires why.None? ==> RefusalOf(safe, before, op).None?
  {
    if why.Some? then outcome == Rejected(Conflict(op.id, why.value)) && after == before
    else outcome == Accepted(ChangeFor(safe, before, op)) && after == Apply(before, outcome.change)
  }

  // ---------------------------------------------------------------- the same, on paths and states alone

  ghost predicate HasPath(op: Operation, p: Path) {
    NormalisePath(op.path) == Some(p)
  }

  ghost predicate HasDestination(op: Operation, d: Path) {
    op.destination.Some? && !IsBlank(op.destination.value) && NormalisePath(op.destination.value) == Some(d)
  }

  /** Some file or directory lies under the directory. */
  ghost predicate IsOccupied(s: State, dir: Path) {
    exists below :: below != [] && (dir + below in s.files || dir + below in s.dirs)
  }

  /** When each kind of conflict is reported of an operation on a usable path. */
  ghost predicate IsConflictOn(s: State, op: Operation, p: Path, kind: ConflictKind) {
    match kind
    case PathAlreadyExists =>
      (op.kind == CreateFile && p in s.files && !op.allowOverwrite) || (op.kind == CreateDirectory && p in s.dirs)
    case PathNotFound =>
      ((op.kind == ModifyFile || op.kind == DeleteFile) && p !in s.files) || (op.kind == DeleteDirectory && p !in s.dirs)
    case DestinationParentMissing =>
      op.kind == CreateFile && (p in s.files ==> op.allowOverwrite) && ParentMissing(s, p)
    case DirectoryNotEmpty => op.kind == DeleteDirectory && p in s.dirs && IsOccupied(s, p) && !op.recursive
    case _ => false
  }

  /** And of a move between usable paths. */
  ghost predicate IsMoveConflict(s: State, p: Path, d: Path, kind: ConflictKind) {
    match kind
    case PathNotFound => p !in s.files
    case DestinationAlreadyExists => p in s.files && d in s.files
    case DestinationParentMissing => p in s.files && d !in s.files && ParentMissing(s, d)
    case _ => false
  }

  ghost predicate IsMoveConflictFrom(safe: Path -> bool, s: State, op: Operation, p: Path, kind: ConflictKind) {
    if op.destination.None? || IsBlank(op.destination.value) then kind == MissingDestination
    else if forall d :: !HasDestination(op, d) then kind == InvalidPath
    else exists d :: HasDestination(op, d) && if safe(d) then IsMoveConflict(s, p, d, kind) else kind == PathTraversal
  }

  /** When each kind of conflict is reported. */
  ghost predicate IsConflict(safe: Path -> bool, s: State, op: Operation, kind: ConflictKind) {
    if forall p :: !HasPath(op, p) then kind == InvalidPath
    else exists p :: HasPath(op, p) && IsConflictAt(safe, s, op, p, kind)
  }

  ghost predicate IsConflictAt(safe: Path -> bool, s: State, op: Operation, p: Path, kind: ConflictKind) {
    if !safe(p) then kind == PathTraversal
    else if Moves(op.kind) then IsMoveConflictFrom(safe, s, op, p, kind)
    else IsConflictOn(s, op, p, kind)
  }

  /** Which files there are after an accepted operation on a path. */
  ghost predicate FileStays(before: State, op: Operation, p: Path, q: Path) {
    match op.kind
    case CreateFile => q == p || q in before.files
    case ModifyFile => q in before.files
    case DeleteFile => q in before.files && q != p
    case CreateDirectory => q in before.files
    case DeleteDirectory => q in before.files && !(p < q)
    case _ => HasDestination(op, q) || (q in before.files && q != p)
  }

  /** Which directories there are. */
  ghost predicate DirectoryStays(before: State, op: Operation, p: Path, q: Path) {
    match op.kind
    case CreateDirectory => q in before.dirs || (q != [] && q <= p)
    case DeleteDirectory => q in before.dirs && !(p <= q)
    case _ => q in before.dirs
  }

  ghost predicate AreAsTheyShould(before: State, op: Operation, p: Path, after: State) {
    forall q :: (q in after.files <==> FileStays(before, op, p, q)) && (q in after.dirs <==> DirectoryStays(before, op, p, q))
  }

  /** The change names the operation, its paths, and how they fare. */
  ghost predicate IsChangeOf(before: State, op: Operation, p: Path, c: Change, after: State) {
    && c.operationId == op.id && c.kind == op.kind && c.path == p
    && (if Moves(op.kind) then c.destination.Some? && HasDestination(op, c.destination.value) else c.destination.None?)
    && FlagsMatch(c, before, after)
  }

  /** A conflict is reported exactly under its condition, and the state stays; without one the change is the
      operation's, and every path fares as its kind says. */
  ghost predicate IsAnswered(safe: Path -> bool, before: State, op: Operation, outcome: Outcome, after: State) {
    && (forall kind :: outcome == Rejected(Conflict(op.id, kind)) <==> IsConflict(safe, before, op, kind))
    && (outcome.Rejected? ==> outcome.conflict.operationId == op.id && after == before)
    && (outcome.Accepted? ==> exists p :: IsDone(safe, before, op, p, outcome.change, after))
  }

  ghost predicate IsDone(safe: Path -> bool, before: State, op: Operation, p: Path, c: Change, after: State) {
    HasPath(op, p) && safe(p) && IsChangeOf(before, op, p, c, after) && AreAsTheyShould(before, op, p, after)
  }

  lemma OccupiedIs(s: State, dir: Path)
    ensures IsOccupied(s, dir) <==> HasContents(s, dir)
  {
    forall q | Under(dir, q) ensures q == dir + q[|dir|..] && q[|dir|..] != [] {}
    forall below: Path | below != [] ensures Under(dir, dir + below) {}
  }

  lemma MoveConflictIs(safe: Path -> bool, s: State, op: Operation, p: Path, kind: ConflictKind)
    requires Moves(op.kind)
    ensures Refusal(safe, s, op, p) == Some(kind) <==> IsMoveConflictFrom(safe, s, op, p, kind)
  {
    if op.destination.Some? && !IsBlank(op.destination.value) {
      var d := NormalisePath(op.destination.value);
      if d.Some? { assert HasDestination(op, d.value); }
    }
  }

  lemma ConflictOnIs(safe: Path -> bool, s: State, op: Operation, p: Path, kind: ConflictKind)
    requires !Moves(op.kind)
    ensures Refusal(safe, s, op, p) == Some(kind) <==> IsConflictOn(s, op, p, kind)
  {
    OccupiedIs(s, p);
  }

  lemma ConflictIs(safe: Path -> bool, s: State, op: Operation, kind: ConflictKind)
    ensures RefusalOf(safe, s, op) == Some(kind) <==> IsConflict(safe, s, op, kind)
  {
    var p := NormalisePath(op.path);
    if p.Some? {
      assert HasPath(op, p.value);
      if Moves(op.kind) { MoveConflictIs(safe, s, op, p.value, kind); } else { ConflictOnIs(safe, s, op, p.value, kind); }
    }
  }

  lemma StateIs(safe: Path -> bool, s: State, op: Operation, p: Path)
    requires RefusalOf(safe, s, op).None? && HasPath(op, p)
    ensures AreAsTheyShould(s, op, p, Apply(s, ChangeFor(safe, s, op)))
  {
    var after := Apply(s, ChangeFor(safe, s, op));
    if Moves(op.kind) { assert HasDestination(op, NormalisePath(op.destination.value).value); }
    forall q ensures Under(p, q) <==> p < q {}
    if op.kind == CreateDirectory {
      forall q ensures q in WithParents(p) <==> q != [] && q <= p { if q != [] && q <= p { assert q == p[..|q|]; } }
    }
  }

  lemma DecidedIsAnswered(safe: Path -> bool, before: State, op: Operation, outcome: Outcome, after: State)
    requires Decided(safe, before, op, RefusalOf(safe, before, op), outcome, after)
    ensures IsAnswered(safe, before, op, outcome, after)
  {
    forall kind ensures RefusalOf(safe, before, op) == Some(kind) <==> IsConflict(safe, before, op, kind) {
      ConflictIs(safe, before, op, kind);
    }
    if outcome.Accepted? {
      var p := NormalisePath(op.path).value;
      assert HasPath(op, p) && safe(p);
      StateIs(safe, before, op, p);
      FlagsAreRight(safe, before, op);
      if Moves(op.kind) { assert HasDestination(op, NormalisePath(op.destination.value).value); }
      assert IsDone(safe, before, op, p, outcome.change, after);
    }
  }

  function Replay(s: State, changes: seq<Change>): (r: State)
    decreases |changes|
  {
    if changes == [] then s else Replay(Apply(s, changes[0]), changes[1..])
  }

  /** The simulated repository; every operation updates it in place. */
  class Simulator {
    var simFiles: set<Path>
    var simDirs: set<Path>

    constructor (files: set<Path>, dirs: set<Path>)
      ensures simFiles == files && simDirs == dirs
    {
      simFiles, simDirs := files, dirs;
    }

    ghost function Now(): (r: State)
      reads this
    {
      State(simFiles, simDirs)
    }

    method AddDirWithParents(dir: Path)
      modifies this`simDirs
      ensures simDirs == old(simDirs) + WithParents(dir)
    {
      for k := 1 to |dir| + 1
        invariant simDirs == old(simDirs) + set j | 1 <= j < k :: dir[..j]
      {
        simDirs := simDirs + {dir[..k]};
      }
    }

    /** Accepts exactly when nothing refuses; a rejection changes nothing, an acceptance does what its
        change says. */
    method ProcessOperation(op: Operation, safe: Path -> bool) returns (outcome: Outcome)
      modifies this
      ensures Decided(safe, old(Now()), op, RefusalOf(safe, old(Now()), op), outcome, Now())
      ensures IsAnswered(safe, old(Now()), op, outcome, Now())
    {
      outcome := Process(op, safe);
      DecidedIsAnswered(safe, old(Now()), op, outcome, Now());
    }

    method Process(op: Operation, safe: Path -> bool) returns (outcome: Outcome)
      modifies this
      ensures Decided(safe, old(Now()), op, RefusalOf(safe, old(Now()), op), outcome, Now())
    {
      var normalised := NormalisePath(op.path);
      if normalised.None? { return Rejected(Conflict(op.id, InvalidPath)); }
      var p := normalised.value;
      if !safe(p) { return Rejected(Conflict(op.id, PathTraversal)); }
      if Moves(op.kind) {
        outcome := ProcessMove(op, p, safe);
      } else if Directory(op.kind) {
        outcome := ProcessDirectory(op, p, safe);
      } else {
        outcome := ProcessFile(op, p, safe);
      }
    }

    method ProcessFile(op: Operation, p: Path, ghost safe: Path -> bool) returns (outcome: Outcome)
      requires !Moves(op.kind) && !Directory(op.kind) && NormalisePath(op.path) == Some(p) && safe(p)
      modifies this
      ensures Decided(safe, old(Now()), op, Refusal(safe, old(Now()), op, p), outcome, Now())
    {
      if op.kind == CreateFile {
        var existed := p in simFiles;
        if existed && !op.allowOverwrite { return Rejected(Conflict(op.id, PathAlreadyExists)); }
        var parent := ParentDir(p);
        if parent != [] && parent !in simDirs { return Rejected(Conflict(op.id, DestinationParentMissing)); }
        simFiles := simFiles + {p};
        return Accepted(Change(op.id, op.kind, p, None, !existed, false, existed));
      }
      if p !in simFiles { return Rejected(Conflict(op.id, PathNotFound)); }
      if op.kind == ModifyFile {
        return Accepted(Change(op.id, op.kind, p, None, false, false, true));
      }
      simFiles := simFiles - {p};
      return Accepted(Change(op.id, op.kind, p, None, false, true, false));
    }

    method ProcessDirectory(op: Operation, p: Path, ghost safe: Path -> bool) returns (outcome: Outcome)
      requires Directory(op.kind) && NormalisePath(op.path) == Some(p) && safe(p)
      modifies this
      ensures Decided(safe, old(Now()), op, Refusal(safe, old(Now()), op, p), outcome, Now())
    {
      if op.kind == CreateDirectory {
        if p in simDirs { return Rejected(Conflict(op.id, PathAlreadyExists)); }
        AddDirWithParents(p);
        return Accepted(Change(op.id, op.kind, p, None, true, false, false));
      }
      if p !in simDirs { return Rejected(Conflict(op.id, PathNotFound)); }
      var hasContents := (exists f :: f in simFiles && Under(p, f)) || (exists d :: d in simDirs && Under(p, d));
      if hasContents && !op.recursive { return Rejected(Conflict(op.id, DirectoryNotEmpty)); }
      simDirs := simDirs - {p};
      simDirs := simDirs - set d | d in simDirs && Under(p, d);
      simFiles := simFiles - set f | f in simFiles && Under(p, f);
      return Accepted(Change(op.id, op.kind, p, None, false, true, false));
    }

    method ProcessMove(op: Operation, p: Path, safe: Path -> bool) returns (outcome: Outcome)
      requires Moves(op.kind) && NormalisePath(op.path) == Some(p) && safe(p)
      modifies this
      ensures Decided(safe, old(Now()), op, Refusal(safe, old(Now()), op, p), outcome, Now())
    {
      if op.destination.None? || IsBlank(op.destination.value) {
        return Rejected(Conflict(op.id, MissingDestination));
      }
      var destination := NormalisePath(op.destination.value);
      if destination.None? { return Rejected(Conflict(op.id, InvalidPath)); }
      var d := destination.value;
      if !safe(d) { return Rejected(Conflict(op.id, PathTraversal)); }
      if p !in simFiles { return Rejected(Conflict(op.id, PathNotFound)); }
      if d in simFiles { return Rejected(Conflict(op.id, DestinationAlreadyExists)); }
      var parent := ParentDir(d);
      if parent != [] && parent !in simDirs { return Rejected(Conflict(op.id, DestinationParentMissing)); }
      simFiles := simFiles - {p};
      simFiles := simFiles + {d};
      return Accepted(Change(op.id, op.kind, p, Some(d), true, true, false));
    }
  }

  // ---------------------------------------------------------------- what one operation keeps

  /** The change's flags say how its paths fare between the two states. */
  ghost predicate FlagsMatch(c: Change, before: State, after: State) {
    var was, now := Place(before, c.kind), Place(after, c.kind);
    var target := if c.destination.Some? then c.destination.value else c.path;
    && (c.createsPath <==> target !in was && target in now)
    && (c.removesPath <==> c.path in was && c.path !in now)
    && (c.modifiesPath <==> c.path in was && c.path in now)
  }

  lemma FlagsAreRight(safe: Path -> bool, s: State, op: Operation)
    requires RefusalOf(safe, s, op).None?
    ensures var c := ChangeFor(safe, s, op); FlagsMatch(c, s, Apply(s, c))
  {
    var c := ChangeFor(safe, s, op);
    if op.kind == CreateDirectory { assert c.path[..|c.path|] == c.path; }
  }

  /** Every proper prefix of every file and directory is a directory. */
  ghost predicate AncestorsPresent(s: State) {
    forall p, k :: p in s.files + s.dirs && 0 < k < |p| ==> p[..k] in s.dirs
  }

  /** The file path that a change brings into being. */
  function FileAdded(c: Change): (r: Option<Path>) {
    match c.kind
    case CreateFile => Some(c.path)
    case RenameFile => c.destination
    case MoveFile => c.destination
    case _ => None
  }

  ghost predicate LiterallyPlaced(s: State, p: Path) {
    |p| > 1 ==> p[..|p| - 1] in s.dirs
  }

  /** Whatever the change, ancestors stay present exactly when the file it adds, if any, lies literally
      in a known directory. */
  lemma AncestorsKeptExactlyWhen(s: State, c: Change)
    requires AncestorsPresent(s) && (Moves(c.kind) ==> c.destination.Some?)
    ensures AncestorsPresent(Apply(s, c)) <==> (FileAdded(c).Some? ==> LiterallyPlaced(s, FileAdded(c).value))
  {
    var t := Apply(s, c);
    match c.kind
    case CreateDirectory =>
      forall p, k | p in t.files + t.dirs && 0 < k < |p| ensures p[..k] in t.dirs {
        if p !in s.files + s.dirs {
          var j :| 1 <= j <= |c.path| && p == c.path[..j];
          assert p[..k] == c.path[..k];
        }
      }
    case DeleteDirectory =>
      forall p, k | p in t.files + t.dirs && 0 < k < |p| ensures p[..k] in t.dirs {
        if p[..k] == c.path { assert Under(c.path, p); }
      }
    case ModifyFile =>
    case DeleteFile =>
    case _ =>
      var added := FileAdded(c).value;
      AddedFileAncestors(s, t, added);
  }

  lemma AddedFileAncestors(s: State, t: State, added: Path)
    requires AncestorsPresent(s) && t.dirs == s.dirs && added in t.files && t.files <= s.files + {added}
    ensures AncestorsPresent(t) <==> LiterallyPlaced(s, added)
  {
    if LiterallyPlaced(s, added) {
      forall k | 0 < k < |added| ensures added[..k] in s.dirs {
        var parent := added[..|added| - 1];
        if k < |parent| { assert parent[..k] == added[..k]; }
        assert k == |parent| ==> added[..k] == parent;
      }
    }
    if AncestorsPresent(t) && |added| > 1 { assert added[..|added| - 1] in t.dirs; }
  }

  /** A path with no empty component and no "." component. */
  predicate Clean(p: Path) {
    forall i :: 0 <= i < |p| ==> p[i] != "" && p[i] != "."
  }

  lemma {:induction false} CleanIsMeaningful(p: Path)
    requires Clean(p)
    ensures Meaningful(p) == p
  {
    if p != [] {
      CleanIsMeaningful(p[..|p| - 1]);
      assert p == p[..|p| - 1] + [p[|p| - 1]];
    }
  }

  lemma AcceptedFileHasParent(safe: Path -> bool, s: State, op: Operation)
    requires RefusalOf(safe, s, op).None?
    ensures var added := FileAdded(ChangeFor(safe, s, op)); added.Some? ==> !ParentMissing(s, added.value)
    ensures var c := ChangeFor(safe, s, op); Moves(c.kind) ==> c.destination.Some?
  {
  }

  lemma CleanParentIsLiteral(s: State, p: Path)
    requires Clean(p) && p != [] && !ParentMissing(s, p)
    ensures LiterallyPlaced(s, p)
  {
    CleanIsMeaningful(p);
  }

  /** Accepted operations on clean paths keep every ancestor present. */
  lemma CleanOperationKeepsAncestors(safe: Path -> bool, s: State, op: Operation)
    requires AncestorsPresent(s) && RefusalOf(safe, s, op).None?
    requires var c := ChangeFor(safe, s, op); FileAdded(c).Some? ==> Clean(FileAdded(c).value)
    ensures AncestorsPresent(Apply(s, ChangeFor(safe, s, op)))
  {
    var c := ChangeFor(safe, s, op);
    AcceptedFileHasParent(safe, s, op);
    var added := FileAdded(c);
    if added.Some? && added.value != [] { CleanParentIsLiteral(s, added.value); }
    AncestorsKeptExactlyWhen(s, c);
  }

  lemma TrimDoubleSlash()
    ensures !IsBlank("a//b") && Strip("a//b") == "a//b" && ReplaceChar("a//b", '\\', '/') == "a//b"
    ensures TrimRight(TrimLeft("a//b", IsSlash), IsSlash) == "a//b"
  {
    assert !IsSpace("a//b"[0]) && !IsSpace("a//b"[3]);
    assert !IsSlash("a//b"[0]) && !IsSlash("a//b"[3]);
    TrimSolid("a//b", IsSpace);
    TrimSolid("a//b", IsSlash);
  }

  lemma SplitDoubleSlash()
    ensures Split("a//b", '/') == ["a", "", "b"]
  {
    SplitWord("b", '/');
    SplitAfter("", '/', "b");
    SplitAfter("a", '/', "/b");
    assert "a//b" == "a" + ['/'] + "/b" && "/b" == "" + ['/'] + "b";
  }

  lemma NormaliseDoubleSlash()
    ensures NormalisePath("a//b") == Some(["a", "", "b"])
  {
    TrimDoubleSlash();
    SplitDoubleSlash();
  }

  lemma ParentOfDoubleSlash()
    ensures ParentDir(["a", "", "b"]) == ["a"]
  {
    assert ["a", "", "b"][..2] == ["a", ""] && ["a", ""][..1] == ["a"];
    assert Meaningful(["a", "", "b"]) == ["a", "b"];
  }

  lemma UncleanFileLosesAncestor(s: State, op: Operation, p: Path)
    requires s == State({}, {["a"]}) && op.kind == CreateFile && NormalisePath(op.path) == Some(p)
    requires p == ["a", "", "b"] && ParentDir(p) == ["a"]
    ensures AncestorsPresent(s) && RefusalOf(p => true, s, op).None?
    ensures !AncestorsPresent(Apply(s, ChangeFor(p => true, s, op)))
  {
    AncestorsKeptExactlyWhen(s, ChangeFor(p => true, s, op));
  }

  /** An unclean path can be accepted and leave a file whose literal parent is no directory. */
  lemma UncleanPathLosesAncestor()
    ensures var s := State({}, {["a"]}); var op := Operation("1", CreateFile, "a//b", None, false, false);
      && AncestorsPresent(s) && RefusalOf(p => true, s, op).None?
      && !AncestorsPresent(Apply(s, ChangeFor(p => true, s, op)))
  {
    NormaliseDoubleSlash();
    ParentOfDoubleSlash();
    UncleanFileLosesAncestor(State({}, {["a"]}), Operation("1", CreateFile, "a//b", None, false, false), ["a", "", "b"]);
  }

  // ---------------------------------------------------------------- whole plans

  /** What a run of the simulation leaves: the state, the changes and the conflicts, in order. */
  datatype Run = Run(state: State, changes: seq<Change>, conflicts: seq<Conflict>)

  function Simulate(safe: Path -> bool, s: State, ops: seq<Operation>, skip: set<string>): (r: Run)
    decreases |ops|
  {
    if ops == [] then Run(s, [], [])
    else if ops[0].id in skip then Simulate(safe, s, ops[1..], skip)
    else
      var why := RefusalOf(safe, s, ops[0]);
      if why.Some? then
        var rest := Simulate(safe, s, ops[1..], skip);
        rest.(conflicts := [Conflict(ops[0].id, why.value)] + rest.conflicts)
      else
        var c := ChangeFor(safe, s, ops[0]);
        var rest := Simulate(safe, Apply(s, c), ops[1..], skip);
        rest.(changes := [c] + rest.changes)
  }

  /** What an operation targets: its path with its kind, when the path is usable. */
  function Targets(ops: seq<Operation>): (r: seq<Option<(Path, Kind)>>) {
    seq(|ops|, i requires 0 <= i < |ops| =>
      var p := NormalisePath(ops[i].path); if p.None? then None else Some((p.value, ops[i].kind)))
  }

  function OperationIds(ops: seq<Operation>): (r: seq<string>) {
    seq(|ops|, i requires 0 <= i < |ops| => ops[i].id)
  }

  /** An earlier operation has the same target. */
  predicate IsRepeat(targets: seq<Option<(Path, Kind)>>, j: nat)
    requires j < |targets|
  {
    targets[j].Some? && targets[j] in targets[..j]
  }

  function RepeatIds(targets: seq<Option<(Path, Kind)>>, ids: seq<string>): (r: set<string>)
    requires |targets| == |ids|
  {
    set j | 0 <= j < |ids| && IsRepeat(targets, j) :: ids[j]
  }

  function RepeatConflicts(targets: seq<Option<(Path, Kind)>>, ids: seq<string>, n: nat): (r: seq<Conflict>)
    requires n <= |targets| == |ids|
  {
    if n == 0 then []
    else
      var before := RepeatConflicts(targets, ids, n - 1);
      if IsRepeat(targets, n - 1) then before + [Conflict(ids[n - 1], PathAlreadyExists)] else before
  }

  function DuplicateIds(ops: seq<Operation>): (r: set<string>) {
    RepeatIds(Targets(ops), OperationIds(ops))
  }

  datatype Plan = Plan(changes: seq<Change>, conflicts: seq<Conflict>, valid: bool)

  ghost function PlanFor(safe: Path -> bool, s: State, ops: seq<Operation>): (r: Plan) {
    var run := Simulate(safe, s, ops, DuplicateIds(ops));
    var all := RepeatConflicts(Targets(ops), OperationIds(ops), |ops|) + run.conflicts;
    Plan(run.changes, all, all == [])
  }

  /** The first pass: operations whose target was seen before. */
  method FindRepeats(targets: seq<Option<(Path, Kind)>>, ids: seq<string>)
      returns (conflicts: seq<Conflict>, repeated: set<string>)
    requires |targets| == |ids|
    ensures conflicts == RepeatConflicts(targets, ids, |ids|) && repeated == RepeatIds(targets, ids)
  {
    var seen: map<(Path, Kind), string> := map[];
    conflicts, repeated := [], {};
    for j := 0 to |ids|
      invariant forall key :: key in seen <==> Some(key) in targets[..j]
      invariant conflicts == RepeatConflicts(targets, ids, j)
      invariant repeated == set i | 0 <= i < j && IsRepeat(targets, i) :: ids[i]
    {
      assert targets[..j + 1] == targets[..j] + [targets[j]];
      if targets[j].Some? {
        var key := targets[j].value;
        if key in seen {
          conflicts := conflicts + [Conflict(ids[j], PathAlreadyExists)];
          repeated := repeated + {ids[j]};
        } else {
          seen := seen[key := ids[j]];
        }
      }
    }
  }

  /** The simulation from the k-th operation on, one step unfolded. */
  lemma FirstStep(safe: Path -> bool, s: State, ops: seq<Operation>, k: nat, skip: set<string>)
    requires k < |ops|
    ensures var run, op := Simulate(safe, s, ops[k..], skip), ops[k];
      var why := RefusalOf(safe, s, op);
      if op.id in skip then run == Simulate(safe, s, ops[k + 1..], skip)
      else if why.Some? then
        var rest := Simulate(safe, s, ops[k + 1..], skip);
        run == Run(rest.state, rest.changes, [Conflict(op.id, why.value)] + rest.conflicts)
      else
        var c := ChangeFor(safe, s, op);
        var rest := Simulate(safe, Apply(s, c), ops[k + 1..], skip);
        run == Run(rest.state, [c] + rest.changes, rest.conflicts)
  {
    assert ops[k..][0] == ops[k] && ops[k..][1..] == ops[k + 1..];
  }

  /** What is decided so far, followed by what the rest of the simulation decides. */
  ghost function Whole(changes: seq<Change>, conflicts: seq<Conflict>, rest: Run): (run: Run) {
    Run(rest.state, changes + rest.changes, conflicts + rest.conflicts)
  }

  lemma OneMoreChange(changes: seq<Change>, conflicts: seq<Conflict>, c: Change, rest: Run)
    ensures Whole(changes, conflicts, Run(rest.state, [c] + rest.changes, rest.conflicts)) == Whole(changes + [c], conflicts, rest)
  {
    assert changes + ([c] + rest.changes) == (changes + [c]) + rest.changes;
  }

  lemma OneMoreConflict(changes: seq<Change>, conflicts: seq<Conflict>, c: Conflict, rest: Run)
    ensures Whole(changes, conflicts, Run(rest.state, rest.changes, [c] + rest.conflicts)) == Whole(changes, conflicts + [c], rest)
  {
    assert conflicts + ([c] + rest.conflicts) == (conflicts + [c]) + rest.conflicts;
  }

  method DecideNext(sim: Simulator, ghost ops: seq<Operation>, ghost k: nat, op: Operation, skip: set<string>, safe: Path -> bool,
                    changes: seq<Change>, conflicts: seq<Conflict>)
      returns (more: seq<Change>, others: seq<Conflict>)
    requires k < |ops| && op == ops[k]
    modifies sim
    ensures Whole(more, others, Simulate(safe, sim.Now(), ops[k + 1..], skip))
         == Whole(changes, conflicts, Simulate(safe, old(sim.Now()), ops[k..], skip))
  {
    ghost var before := sim.Now();
    FirstStep(safe, before, ops, k, skip);
    more, others := changes, conflicts;
    if op.id !in skip {
      var outcome := sim.ProcessOperation(op, safe);
      ghost var rest := Simulate(safe, sim.Now(), ops[k + 1..], skip);
      match outcome
      case Accepted(c) =>
        OneMoreChange(changes, conflicts, c, rest);
        more := more + [c];
      case Rejected(c) =>
        OneMoreConflict(changes, conflicts, c, rest);
        others := others + [c];
    }
  }

  method MakePlan(files: set<Path>, dirs: set<Path>, ops: seq<Operation>, safe: Path -> bool)
      returns (plan: Plan, final: Simulator)
    ensures plan == PlanFor(safe, State(files, dirs), ops)
    ensures final.Now() == Simulate(safe, State(files, dirs), ops, DuplicateIds(ops)).state
    ensures IsPlanOf(safe, State(files, dirs), ops, plan, final.Now())
  {
    final := new Simulator(files, dirs);
    var duplicateConflicts, duplicateIds := FindRepeats(Targets(ops), OperationIds(ops));
    var changes: seq<Change>, conflicts: seq<Conflict> := [], [];
    assert ops[0..] == ops;
    for k := 0 to |ops|
      invariant fresh(final)
      invariant Whole(changes, conflicts, Simulate(safe, final.Now(), ops[k..], duplicateIds))
             == Simulate(safe, State(files, dirs), ops, duplicateIds)
    {
      changes, conflicts := DecideNext(final, ops, k, ops[k], duplicateIds, safe, changes, conflicts);
    }
    var all := duplicateConflicts + conflicts;
    plan := Plan(changes, all, |all| == 0);
    PlanInSteps(safe, State(files, dirs), ops);
  }

  /** Replaying the changes of a plan on the initial state gives the final simulated state. */
  lemma {:induction false} ReplayGivesFinalState(safe: Path -> bool, s: State, ops: seq<Operation>, skip: set<string>)
    ensures var run := Simulate(safe, s, ops, skip); Replay(s, run.changes) == run.state
    decreases |ops|
  {
    if ops != [] {
      if ops[0].id in skip || RefusalOf(safe, s, ops[0]).Some? {
        ReplayGivesFinalState(safe, s, ops[1..], skip);
      } else {
        var c := ChangeFor(safe, s, ops[0]);
        ReplayGivesFinalState(safe, Apply(s, c), ops[1..], skip);
        var rest := Simulate(safe, Apply(s, c), ops[1..], skip);
        assert ([c] + rest.changes)[1..] == rest.changes;
      }
    }
  }

  /** In a plan on clean paths ancestors are present at every step. */
  lemma {:induction false} RunKeepsAncestors(safe: Path -> bool, s: State, ops: seq<Operation>, skip: set<string>, k: nat)
    requires AncestorsPresent(s)
    requires forall c :: c in Simulate(safe, s, ops, skip).changes && FileAdded(c).Some? ==> Clean(FileAdded(c).value)
    requires k <= |Simulate(safe, s, ops, skip).changes|
    ensures AncestorsPresent(Replay(s, Simulate(safe, s, ops, skip).changes[..k]))
    decreases |ops|
  {
    if k > 0 {
      if ops[0].id in skip || RefusalOf(safe, s, ops[0]).Some? {
        RunKeepsAncestors(safe, s, ops[1..], skip, k);
      } else {
        var c := ChangeFor(safe, s, ops[0]);
        var rest := Simulate(safe, Apply(s, c), ops[1..], skip);
        CleanOperationKeepsAncestors(safe, s, ops[0]);
        RunKeepsAncestors(safe, Apply(s, c), ops[1..], skip, k - 1);
        assert ([c] + rest.changes)[..k] == [c] + rest.changes[..k - 1];
        assert ([c] + rest.changes[..k - 1])[1..] == rest.changes[..k - 1];
      }
    }
  }

  // ---------------------------------------------------------------- a plan, operation by operation

  /** An earlier operation has the same kind and the same path. */
  ghost predicate Repeats(ops: seq<Operation>, j: nat)
    requires j < |ops|
  {
    exists i, p :: 0 <= i < j && ops[i].kind == ops[j].kind && HasPath(ops[i], p) && HasPath(ops[j], p)
  }

  /** The operation has the id of one that repeats another. */
  ghost predicate IsSkipped(ops: seq<Operation>, k: nat)
    requires k < |ops|
  {
    exists j :: 0 <= j < |ops| && Repeats(ops, j) && ops[j].id == ops[k].id
  }

  function ChangesIn(outcomes: seq<Option<Outcome>>): (changes: seq<Change>) {
    if outcomes == [] then []
    else
      var rest := ChangesIn(outcomes[1..]);
      if outcomes[0].Some? && outcomes[0].value.Accepted? then [outcomes[0].value.change] + rest else rest
  }

  function ConflictsIn(outcomes: seq<Option<Outcome>>): (conflicts: seq<Conflict>) {
    if outcomes == [] then []
    else
      var rest := ConflictsIn(outcomes[1..]);
      if outcomes[0].Some? && outcomes[0].value.Rejected? then [outcomes[0].value.conflict] + rest else rest
  }

  ghost predicate IsStep(safe: Path -> bool, before: State, op: Operation, skipped: bool, outcome: Option<Outcome>, after: State) {
    if skipped then outcome.None? && after == before
    else outcome.Some? && IsAnswered(safe, before, op, outcome.value, after)
  }

  /** The operations in turn, each skipped or answered in the state that those before it left. */
  ghost predicate AreSteps(safe: Path -> bool, ops: seq<Operation>, skip: set<string>, states: seq<State>,
                           outcomes: seq<Option<Outcome>>)
  {
    && |outcomes| == |ops| && |states| == |ops| + 1
    && forall k :: 0 <= k < |ops| ==> IsStep(safe, states[k], ops[k], ops[k].id in skip, outcomes[k], states[k + 1])
  }

  lemma StepsCons(safe: Path -> bool, s: State, op: Operation, outcome: Option<Outcome>, ops: seq<Operation>, skip: set<string>,
                  states: seq<State>, outcomes: seq<Option<Outcome>>)
    requires AreSteps(safe, ops, skip, states, outcomes) && IsStep(safe, s, op, op.id in skip, outcome, states[0])
    ensures AreSteps(safe, [op] + ops, skip, [s] + states, [outcome] + outcomes)
    ensures ([s] + states)[|ops| + 1] == states[|ops|]
    ensures ChangesIn([outcome] + outcomes) ==
      (if outcome.Some? && outcome.value.Accepted? then [outcome.value.change] else []) + ChangesIn(outcomes)
    ensures ConflictsIn([outcome] + outcomes) ==
      (if outcome.Some? && outcome.value.Rejected? then [outcome.value.conflict] else []) + ConflictsIn(outcomes)
  {
    assert ([outcome] + outcomes)[1..] == outcomes;
    var all, longer, from := [op] + ops, [outcome] + outcomes, [s] + states;
    forall k | 0 <= k < |all| ensures IsStep(safe, from[k], all[k], all[k].id in skip, longer[k], from[k + 1]) {
      if k > 0 {
        assert IsStep(safe, states[k - 1], ops[k - 1], ops[k - 1].id in skip, outcomes[k - 1], states[k]);
      }
    }
  }

  /** What the simulator answers to the first operation, and where that leads. */
  ghost function FirstOutcome(safe: Path -> bool, s: State, op: Operation, skip: set<string>): (step: (Option<Outcome>, State)) {
    if op.id in skip then (None, s)
    else
      var why := RefusalOf(safe, s, op);
      if why.Some? then (Some(Rejected(Conflict(op.id, why.value))), s)
      else (Some(Accepted(ChangeFor(safe, s, op))), Apply(s, ChangeFor(safe, s, op)))
  }

  lemma FirstIsStep(safe: Path -> bool, s: State, op: Operation, skip: set<string>)
    ensures var step := FirstOutcome(safe, s, op, skip); IsStep(safe, s, op, op.id in skip, step.0, step.1)
  {
    var step := FirstOutcome(safe, s, op, skip);
    if op.id !in skip { DecidedIsAnswered(safe, s, op, step.0.value, step.1); }
  }

  lemma {:induction false} SimulationInSteps(safe: Path -> bool, s: State, ops: seq<Operation>, skip: set<string>)
    returns (states: seq<State>, outcomes: seq<Option<Outcome>>)
    ensures AreSteps(safe, ops, skip, states, outcomes) && states[0] == s
    ensures Simulate(safe, s, ops, skip) == Run(states[|ops|], ChangesIn(outcomes), ConflictsIn(outcomes))
    decreases |ops|
  {
    if ops == [] {
      states, outcomes := [s], [];
    } else {
      var step := FirstOutcome(safe, s, ops[0], skip);
      FirstIsStep(safe, s, ops[0], skip);
      var later, rest := SimulationInSteps(safe, step.1, ops[1..], skip);
      StepsCons(safe, s, ops[0], step.0, ops[1..], skip, later, rest);
      states, outcomes := [s] + later, [step.0] + rest;
      assert ops == [ops[0]] + ops[1..];
    }
  }

  lemma RepeatIs(ops: seq<Operation>, j: nat)
    requires j < |ops|
    ensures IsRepeat(Targets(ops), j) <==> Repeats(ops, j)
  {
    var targets := Targets(ops);
    if IsRepeat(targets, j) {
      var i :| 0 <= i < j && targets[..j][i] == targets[j];
      assert HasPath(ops[i], targets[j].value.0) && HasPath(ops[j], targets[j].value.0);
    }
    if Repeats(ops, j) {
      var i, p :| 0 <= i < j && ops[i].kind == ops[j].kind && HasPath(ops[i], p) && HasPath(ops[j], p);
      assert targets[..j][i] == targets[i] == targets[j];
    }
  }

  ghost function RepeatsAt(ops: seq<Operation>): (p: nat -> bool) {
    (j: nat) => j < |ops| && Repeats(ops, j)
  }

  function ConflictsAt(ids: seq<string>, places: seq<nat>): (conflicts: seq<Conflict>)
    requires forall k :: 0 <= k < |places| ==> places[k] < |ids|
  {
    seq(|places|, k requires 0 <= k < |places| => Conflict(ids[places[k]], PathAlreadyExists))
  }

  lemma ConflictsSnoc(ids: seq<string>, places: seq<nat>, n: nat)
    requires n < |ids| && forall k :: 0 <= k < |places| ==> places[k] < |ids|
    ensures ConflictsAt(ids, places + [n]) == ConflictsAt(ids, places) + [Conflict(ids[n], PathAlreadyExists)]
  {
  }

  lemma {:induction false} RepeatsInOrder(targets: seq<Option<(Path, Kind)>>, ids: seq<string>, n: nat, p: nat -> bool)
    requires n <= |targets| == |ids| && forall j :: 0 <= j < n ==> (p(j) <==> IsRepeat(targets, j))
    ensures RepeatConflicts(targets, ids, n) == ConflictsAt(ids, Places(n, p))
  {
    if n > 0 {
      RepeatsInOrder(targets, ids, n - 1, p);
      ConflictsSnoc(ids, Places(n - 1, p), n - 1);
    }
  }

  /** What a plan is: first the conflicts of the operations that repeat an earlier one, then, in turn, what becomes of
      every operation that does not share an id with one of those. */
  ghost predicate IsPlanOf(safe: Path -> bool, s: State, ops: seq<Operation>, plan: Plan, final: State) {
    exists places, states, outcomes ::
      && ArePlaces(places, |ops|, RepeatsAt(ops))
      && AreSteps(safe, ops, set k | 0 <= k < |ops| && IsSkipped(ops, k) :: ops[k].id, states, outcomes)
      && states[0] == s && states[|ops|] == final
      && var conflicts := ConflictsAt(OperationIds(ops), places) + ConflictsIn(outcomes);
         plan == Plan(ChangesIn(outcomes), conflicts, conflicts == [])
  }

  lemma SkippedIds(ops: seq<Operation>)
    ensures DuplicateIds(ops) == set k | 0 <= k < |ops| && IsSkipped(ops, k) :: ops[k].id
  {
    forall j | 0 <= j < |ops| ensures IsRepeat(Targets(ops), j) <==> Repeats(ops, j) { RepeatIs(ops, j); }
    forall j | 0 <= j < |ops| && Repeats(ops, j) ensures IsSkipped(ops, j) {}
  }

  lemma PlanInSteps(safe: Path -> bool, s: State, ops: seq<Operation>)
    ensures IsPlanOf(safe, s, ops, PlanFor(safe, s, ops), Simulate(safe, s, ops, DuplicateIds(ops)).state)
  {
    var places := Places(|ops|, RepeatsAt(ops));
    PlacesAre(|ops|, RepeatsAt(ops));
    forall j | 0 <= j < |ops| ensures RepeatsAt(ops)(j) <==> IsRepeat(Targets(ops), j) { RepeatIs(ops, j); }
    RepeatsInOrder(Targets(ops), OperationIds(ops), |ops|, RepeatsAt(ops));
    var states, outcomes := SimulationInSteps(safe, s, ops, DuplicateIds(ops));
    SkippedIds(ops);
  }

  // ---------------------------------------------------------------- planning again

  /** The operations whose change is in the plan, in order. */
  function Kept(safe: Path -> bool, s: State, ops: seq<Operation>, skip: set<string>): (r: seq<Operation>)
    decreases |ops|
  {
    if ops == [] then []
    else if ops[0].id in skip || RefusalOf(safe, s, ops[0]).Some? then Kept(safe, s, ops[1..], skip)
    else [ops[0]] + Kept(safe, Apply(s, ChangeFor(safe, s, ops[0])), ops[1..], skip)
  }

  lemma {:induction false} KeptRunsClean(safe: Path -> bool, s: State, ops: seq<Operation>, skip: set<string>)
    ensures var run := Simulate(safe, s, ops, skip);
      Simulate(safe, s, Kept(safe, s, ops, skip), {}) == Run(run.state, run.changes, [])
    decreases |ops|
  {
    if ops != [] {
      if ops[0].id in skip || RefusalOf(safe, s, ops[0]).Some? {
        KeptRunsClean(safe, s, ops[1..], skip);
      } else {
        var next := Apply(s, ChangeFor(safe, s, ops[0]));
        KeptRunsClean(safe, next, ops[1..], skip);
        assert Kept(safe, s, ops, skip)[1..] == Kept(safe, next, ops[1..], skip);
      }
    }
  }

  /** The kept operations stand in the list at increasing places. */
  ghost predicate StandAt(ops: seq<Operation>, kept: seq<Operation>, places: seq<nat>) {
    && |places| == |kept|
    && (forall k :: 0 <= k < |kept| ==> places[k] < |ops| && kept[k] == ops[places[k]])
    && (forall j, k :: 0 <= j < k < |kept| ==> places[j] < places[k])
  }

  function Shifted(places: seq<nat>): (r: seq<nat>)
    ensures |r| == |places| && forall k :: 0 <= k < |r| ==> r[k] == places[k] + 1
  {
    seq(|places|, k requires 0 <= k < |places| => places[k] + 1)
  }

  lemma StandAtCons(op: Operation, tail: seq<Operation>, kept: seq<Operation>, places: seq<nat>)
    requires StandAt(tail, kept, places)
    ensures StandAt([op] + tail, kept, Shifted(places))
    ensures StandAt([op] + tail, [op] + kept, [0] + Shifted(places))
  {
  }

  lemma {:induction false} KeptPlaces(safe: Path -> bool, s: State, ops: seq<Operation>, skip: set<string>)
      returns (places: seq<nat>)
    ensures StandAt(ops, Kept(safe, s, ops, skip), places)
    decreases |ops|
  {
    if ops == [] {
      places := [];
    } else {
      assert ops == [ops[0]] + ops[1..];
      var refused := ops[0].id in skip || RefusalOf(safe, s, ops[0]).Some?;
      var next := if refused then s else Apply(s, ChangeFor(safe, s, ops[0]));
      var rest := KeptPlaces(safe, next, ops[1..], skip);
      StandAtCons(ops[0], ops[1..], Kept(safe, next, ops[1..], skip), rest);
      places := if refused then Shifted(rest) else [0] + Shifted(rest);
    }
  }

  lemma {:induction false} KeptAreUnskipped(safe: Path -> bool, s: State, ops: seq<Operation>, skip: set<string>)
    ensures forall op :: op in Kept(safe, s, ops, skip) ==> op.id !in skip
    decreases |ops|
  {
    if ops != [] {
      var refused := ops[0].id in skip || RefusalOf(safe, s, ops[0]).Some?;
      KeptAreUnskipped(safe, if refused then s else Apply(s, ChangeFor(safe, s, ops[0])), ops[1..], skip);
    }
  }

  /** Planning again with every rejected operation left out gives a valid plan with the same changes. */
  lemma ReplanningKeptIsValid(safe: Path -> bool, s: State, ops: seq<Operation>)
    ensures PlanFor(safe, s, Kept(safe, s, ops, DuplicateIds(ops)))
         == Plan(PlanFor(safe, s, ops).changes, [], true)
  {
    var skip := DuplicateIds(ops);
    var kept := Kept(safe, s, ops, skip);
    KeptRunsClean(safe, s, ops, skip);
    KeptHasNoRepeats(safe, s, ops);
    NoRepeatsNoConflicts(Targets(kept), OperationIds(kept), |kept|);
    assert DuplicateIds(kept) == {};
  }

  lemma KeptHasNoRepeats(safe: Path -> bool, s: State, ops: seq<Operation>)
    ensures var targets := Targets(Kept(safe, s, ops, DuplicateIds(ops)));
      forall k :: 0 <= k < |targets| ==> !IsRepeat(targets, k)
  {
    var skip := DuplicateIds(ops);
    var kept := Kept(safe, s, ops, skip);
    var places := KeptPlaces(safe, s, ops, skip);
    KeptAreUnskipped(safe, s, ops, skip);
    forall k | 0 <= k < |kept| ensures OperationIds(ops)[places[k]] !in skip { assert kept[k] in kept; }
    ChosenHaveNoRepeats(Targets(ops), OperationIds(ops), Targets(kept), places);
  }

  lemma ChosenHaveNoRepeats(all: seq<Option<(Path, Kind)>>, ids: seq<string>, chosen: seq<Option<(Path, Kind)>>,
                            places: seq<nat>)
    requires |all| == |ids| && |places| == |chosen|
    requires forall k :: 0 <= k < |chosen| ==> places[k] < |all| && chosen[k] == all[places[k]]
    requires forall k :: 0 <= k < |chosen| ==> ids[places[k]] !in RepeatIds(all, ids)
    requires forall j, k :: 0 <= j < k < |chosen| ==> places[j] < places[k]
    ensures forall k :: 0 <= k < |chosen| ==> !IsRepeat(chosen, k)
  {
    forall k | 0 <= k < |chosen| ensures !IsRepeat(chosen, k) {
      assert !IsRepeat(all, places[k]);
      forall j | 0 <= j < k ensures all[places[j]] in all[..places[k]] {
        assert all[..places[k]][places[j]] == all[places[j]];
      }
    }
  }

  lemma {:induction false} NoRepeatsNoConflicts(targets: seq<Option<(Path, Kind)>>, ids: seq<string>, n: nat)
    requires n <= |targets| == |ids| && forall j :: 0 <= j < n ==> !IsRepeat(targets, j)
    ensures RepeatConflicts(targets, ids, n) == []
  {
    if n > 0 { NoRepeatsNoConflicts(targets, ids, n - 1); }
  }

  // ---------------------------------------------------------------- one answer an operation

  function ChangeIds(changes: seq<Change>): (r: seq<string>) {
    seq(|changes|, i requires 0 <= i < |changes| => changes[i].operationId)
  }

  function ConflictIds(conflicts: seq<Conflict>): (r: seq<string>) {
    seq(|conflicts|, i requires 0 <= i < |conflicts| => conflicts[i].operationId)
  }

  /** The ids that are not skipped, repeats kept. */
  function Outside(ids: seq<string>, skip: set<string>): (r: seq<string>) {
    if ids == [] then []
    else
      var before := Outside(ids[..|ids| - 1], skip);
      if ids[|ids| - 1] in skip then before else before + [ids[|ids| - 1]]
  }

  lemma {:induction false} OutsideCons(id: string, ids: seq<string>, skip: set<string>)
    ensures Outside([id] + ids, skip) == (if id in skip then [] else [id]) + Outside(ids, skip)
  {
    if ids == [] {
      assert [id] + ids == [id] && [id][..0] == [];
    } else {
      OutsideCons(id, ids[..|ids| - 1], skip);
      assert ([id] + ids)[..|ids|] == [id] + ids[..|ids| - 1];
    }
  }

  /** c holds the same ids as a and b together. */
  ghost predicate Together(a: seq<string>, b: seq<string>, c: seq<string>) {
    multiset(a) + multiset(b) == multiset(c)
  }

  lemma TogetherWithOneMore(x: string, a: seq<string>, b: seq<string>, c: seq<string>)
    requires Together(a, b, c)
    ensures Together([x] + a, b, [x] + c) && Together(a, [x] + b, [x] + c)
    ensures Together(a + [x], b, c + [x]) && Together(a, b + [x], c + [x])
  {
  }

  lemma AnswersOneMore(run: Run, id: string, ids: seq<string>)
    requires Together(ChangeIds(run.changes), ConflictIds(run.conflicts), ids)
    ensures forall c: Change :: c.operationId == id ==>
      Together(ChangeIds([c] + run.changes), ConflictIds(run.conflicts), [id] + ids)
    ensures forall c: Conflict :: c.operationId == id ==>
      Together(ChangeIds(run.changes), ConflictIds([c] + run.conflicts), [id] + ids)
  {
    TogetherWithOneMore(id, ChangeIds(run.changes), ConflictIds(run.conflicts), ids);
    forall c: Change | c.operationId == id
      ensures Together(ChangeIds([c] + run.changes), ConflictIds(run.conflicts), [id] + ids)
    {
      assert ChangeIds([c] + run.changes) == [id] + ChangeIds(run.changes);
    }
    forall c: Conflict | c.operationId == id
      ensures Together(ChangeIds(run.changes), ConflictIds([c] + run.conflicts), [id] + ids)
    {
      assert ConflictIds([c] + run.conflicts) == [id] + ConflictIds(run.conflicts);
    }
  }

  /** The simulation answers every operation it does not skip, each once. */
  lemma {:induction false} SimulationAnswersTheUnskipped(safe: Path -> bool, s: State, ops: seq<Operation>,
                                                        skip: set<string>)
    ensures var run := Simulate(safe, s, ops, skip);
      Together(ChangeIds(run.changes), ConflictIds(run.conflicts), Outside(OperationIds(ops), skip))
    decreases |ops|
  {
    if ops != [] {
      var rest := Outside(OperationIds(ops[1..]), skip);
      OutsideCons(ops[0].id, OperationIds(ops[1..]), skip);
      assert OperationIds(ops) == [ops[0].id] + OperationIds(ops[1..]);
      if ops[0].id in skip {
        SimulationAnswersTheUnskipped(safe, s, ops[1..], skip);
        assert [] + rest == rest;
      } else if RefusalOf(safe, s, ops[0]).Some? {
        SimulationAnswersTheUnskipped(safe, s, ops[1..], skip);
        AnswersOneMore(Simulate(safe, s, ops[1..], skip), ops[0].id, rest);
      } else {
        var c := ChangeFor(safe, s, ops[0]);
        SimulationAnswersTheUnskipped(safe, Apply(s, c), ops[1..], skip);
        AnswersOneMore(Simulate(safe, Apply(s, c), ops[1..], skip), ops[0].id, rest);
      }
    }
  }

  /** No operation is skipped unless it is itself a repeat. */
  ghost predicate OnlyRepeatsSkipped(targets: seq<Option<(Path, Kind)>>, ids: seq<string>, n: nat)
    requires n <= |targets| == |ids|
  {
    forall j :: 0 <= j < n && ids[j] in RepeatIds(targets, ids) ==> IsRepeat(targets, j)
  }

  lemma {:induction false} SkippedAtLeastRepeats(targets: seq<Option<(Path, Kind)>>, ids: seq<string>, n: nat)
    requires n <= |targets| == |ids|
    ensures var answered := |Outside(ids[..n], RepeatIds(targets, ids))| + |RepeatConflicts(targets, ids, n)|;
      answered <= n && (answered == n <==> OnlyRepeatsSkipped(targets, ids, n))
  {
    if n > 0 {
      SkippedAtLeastRepeats(targets, ids, n - 1);
      assert ids[..n][..n - 1] == ids[..n - 1] && ids[..n][n - 1] == ids[n - 1];
      assert IsRepeat(targets, n - 1) ==> ids[n - 1] in RepeatIds(targets, ids);
    }
  }

  lemma OutsideSnoc(ids: seq<string>, id: string, skip: set<string>)
    ensures Outside(ids + [id], skip) == if id in skip then Outside(ids, skip) else Outside(ids, skip) + [id]
  {
    assert (ids + [id])[..|ids|] == ids;
  }

  lemma ConflictIdsSnoc(targets: seq<Option<(Path, Kind)>>, ids: seq<string>, n: nat)
    requires 1 <= n <= |targets| == |ids|
    ensures var before := ConflictIds(RepeatConflicts(targets, ids, n - 1));
      ConflictIds(RepeatConflicts(targets, ids, n)) == if IsRepeat(targets, n - 1) then before + [ids[n - 1]] else before
  {
    var before := RepeatConflicts(targets, ids, n - 1);
    assert ConflictIds(before + [Conflict(ids[n - 1], PathAlreadyExists)]) == ConflictIds(before) + [ids[n - 1]];
  }

  lemma RepeatIsSkipped(targets: seq<Option<(Path, Kind)>>, ids: seq<string>, n: nat)
    requires 1 <= n <= |targets| == |ids| && OnlyRepeatsSkipped(targets, ids, n)
    ensures OnlyRepeatsSkipped(targets, ids, n - 1)
    ensures IsRepeat(targets, n - 1) <==> ids[n - 1] in RepeatIds(targets, ids)
  {
  }

  lemma {:induction false} RepeatsAnswerTheSkipped(targets: seq<Option<(Path, Kind)>>, ids: seq<string>, n: nat)
    requires n <= |targets| == |ids| && OnlyRepeatsSkipped(targets, ids, n)
    ensures Together(Outside(ids[..n], RepeatIds(targets, ids)), ConflictIds(RepeatConflicts(targets, ids, n)), ids[..n])
  {
    if n > 0 {
      var front, id, skip := ids[..n - 1], ids[n - 1], RepeatIds(targets, ids);
      assert ids[..n] == front + [id];
      RepeatIsSkipped(targets, ids, n);
      RepeatsAnswerTheSkipped(targets, ids, n - 1);
      OutsideSnoc(front, id, skip);
      ConflictIdsSnoc(targets, ids, n);
      TogetherWithOneMore(id, Outside(front, skip), ConflictIds(RepeatConflicts(targets, ids, n - 1)), front);
    }
  }

  /** The ids that a plan answers, once for each change or conflict. */
  ghost function Answers(plan: Plan): (r: multiset<string>) {
    multiset(ChangeIds(plan.changes)) + multiset(ConflictIds(plan.conflicts))
  }

  lemma ConflictIdsConcat(a: seq<Conflict>, b: seq<Conflict>)
    ensures multiset(ConflictIds(a + b)) == multiset(ConflictIds(a)) + multiset(ConflictIds(b))
  {
    assert ConflictIds(a + b) == ConflictIds(a) + ConflictIds(b);
  }

  lemma AnswersSplit(safe: Path -> bool, s: State, ops: seq<Operation>)
    ensures Answers(PlanFor(safe, s, ops))
         == multiset(Outside(OperationIds(ops), DuplicateIds(ops)))
          + multiset(ConflictIds(RepeatConflicts(Targets(ops), OperationIds(ops), |ops|)))
  {
    var run := Simulate(safe, s, ops, DuplicateIds(ops));
    SimulationAnswersTheUnskipped(safe, s, ops, DuplicateIds(ops));
    ConflictIdsConcat(RepeatConflicts(Targets(ops), OperationIds(ops), |ops|), run.conflicts);
  }

  /** Every operation gets exactly one change or conflict of its own exactly when no operation shares its
      id with a repeated one without being one. */
  lemma OneAnswerEachExactlyWhen(safe: Path -> bool, s: State, ops: seq<Operation>)
    ensures Answers(PlanFor(safe, s, ops)) == multiset(OperationIds(ops))
      <==> OnlyRepeatsSkipped(Targets(ops), OperationIds(ops), |ops|)
  {
    var targets, ids := Targets(ops), OperationIds(ops);
    AnswersSplit(safe, s, ops);
    assert ids[..|ids|] == ids;
    SkippedAtLeastRepeats(targets, ids, |ids|);
    if OnlyRepeatsSkipped(targets, ids, |ids|) {
      RepeatsAnswerTheSkipped(targets, ids, |ids|);
    } else {
      assert |Answers(PlanFor(safe, s, ops))| < |ids|;
      assert |multiset(ids)| == |ids|;
    }
  }

  lemma DistinctIdsSkipOnlyRepeats(targets: seq<Option<(Path, Kind)>>, ids: seq<string>)
    requires |targets| == |ids| && forall i, j :: 0 <= i < j < |ids| ==> ids[i] != ids[j]
    ensures OnlyRepeatsSkipped(targets, ids, |ids|)
  {
  }

  /** Distinct ids are enough. */
  lemma DistinctIdsGetOneAnswerEach(safe: Path -> bool, s: State, ops: seq<Operation>)
    requires forall i, j :: 0 <= i < j < |ops| ==> ops[i].id != ops[j].id
    ensures Answers(PlanFor(safe, s, ops)) == multiset(OperationIds(ops))
  {
    OneAnswerEachExactlyWhen(safe, s, ops);
    DistinctIdsSkipOnlyRepeats(Targets(ops), OperationIds(ops));
  }

  /** With a shared id an operation can vanish: here two operations get one conflict and no change. */
  lemma SharedIdLosesAnOperation(safe: Path -> bool, s: State)
    ensures var op := Operation("1", CreateFile, "a//b", None, false, false);
      Answers(PlanFor(safe, s, [op, op])) != multiset(OperationIds([op, op]))
  {
    var op := Operation("1", CreateFile, "a//b", None, false, false);
    var targets, ids := Targets([op, op]), OperationIds([op, op]);
    NormaliseDoubleSlash();
    assert targets[0] == targets[1] == targets[..1][0] && targets[0].Some?;
    assert IsRepeat(targets, 1) && ids[1] in RepeatIds(targets, ids) && ids[0] == ids[1];
    assert !IsRepeat(targets, 0);
    OneAnswerEachExactlyWhen(safe, s, [op, op]);
  }
}
