/** Textual resolution of remote SFTP paths, and what it preserves. */
module RemotePath {
  import opened Common

  // ----- Splitting and joining at '/' -----

  function Split(s: string): (parts: seq<string>)
    ensures |parts| >= 1
    ensures forall p :: p in parts ==> '/' !in p
  {
    if s == "" then [""]
    else
      var rest := Split(s[1..]);
      if s[0] == '/' then [""] + rest else [[s[0]] + rest[0]] + rest[1..]
  }

  function Join(parts: seq<string>): string {
    if parts == [] then ""
    else if |parts| == 1 then parts[0]
    else parts[0] + "/" + Join(parts[1..])
  }

  lemma SplitFirst(s: string)
    requires s != ""
    ensures var rest := Split(s[1..]);
      Split(s) == if s[0] == '/' then [""] + rest else [[s[0]] + rest[0]] + rest[1..]
  {
  }

  lemma {:induction false} SplitAtSlash(a: string, b: string)
    ensures Split(a + "/" + b) == Split(a) + Split(b)
  {
    hide Split;
    var s := a + "/" + b;
    SplitFirst(s);
    if a == "" {
      assert s[1..] == b;
      assert Split("") == [""] by {
        SplitEmpty();
      }
    } else {
      SplitAtSlash(a[1..], b);
      SplitFirst(a);
      assert s[0] == a[0] && s[1..] == a[1..] + "/" + b;
      var rest := Split(a[1..]);
      assert (rest + Split(b))[0] == rest[0] && (rest + Split(b))[1..] == rest[1..] + Split(b);
      Associative([[a[0]] + rest[0]], rest[1..], Split(b));
      Associative([""], rest, Split(b));
    }
  }

  lemma SplitEmpty()
    ensures Split("") == [""]
  {
  }

  lemma {:induction false} SplitPlain(s: string)
    requires '/' !in s
    ensures Split(s) == [s]
  {
    if s != "" {
      SplitPlain(s[1..]);
      assert [s[0]] + s[1..] == s;
    }
  }

  lemma {:induction false} SplitJoin(parts: seq<string>)
    requires parts != [] && forall p :: p in parts ==> '/' !in p
    ensures Split(Join(parts)) == parts
  {
    SplitPlain(parts[0]);
    if |parts| > 1 {
      SplitJoin(parts[1..]);
      SplitAtSlash(parts[0], Join(parts[1..]));
    }
  }

  // ----- Where a path leads -----

  /** One step of a walk through a directory tree; `..` at the root stays there. */
  function Step(place: seq<string>, part: string): seq<string> {
    if part == "" || part == "." then place
    else if part == ".." then if place == [] then [] else place[..|place| - 1]
    else place + [part]
  }

  function Walk(place: seq<string>, parts: seq<string>): seq<string>
    decreases |parts|
  {
    if parts == [] then place else Walk(Step(place, parts[0]), parts[1..])
  }

  predicate Absolute(path: string) {
    path != "" && path[0] == '/'
  }

  /** Where `path` leads for someone standing at `cwd`. */
  function Destination(cwd: seq<string>, path: string): seq<string> {
    Walk(if Absolute(path) then [] else cwd, Split(path))
  }

  predicate Name(part: string) {
    part != "" && part != "." && part != ".." && '/' !in part
  }

  predicate Names(parts: seq<string>) {
    forall p :: p in parts ==> Name(p)
  }

  lemma {:induction false} WalkAppend(place: seq<string>, a: seq<string>, b: seq<string>)
    ensures Walk(place, a + b) == Walk(Walk(place, a), b)
    decreases |a|
  {
    if a == [] {
      assert a + b == b;
    } else {
      WalkAppend(Step(place, a[0]), a[1..], b);
      assert (a + b)[1..] == a[1..] + b;
    }
  }

  lemma {:induction false} WalkGivesNames(place: seq<string>, parts: seq<string>)
    requires Names(place) && forall p :: p in parts ==> '/' !in p
    ensures Names(Walk(place, parts))
    decreases |parts|
  {
    if parts != [] {
      WalkGivesNames(Step(place, parts[0]), parts[1..]);
    }
  }

  lemma {:induction false} WalkOfNames(place: seq<string>, parts: seq<string>)
    requires Names(parts)
    ensures Walk(place, parts) == place + parts
    decreases |parts|
  {
    if parts == [] {
      assert place + parts == place;
    } else {
      assert Name(parts[0]);
      WalkOfNames(place + [parts[0]], parts[1..]);
      assert place + [parts[0]] + parts[1..] == place + parts;
    }
  }

  // ----- Normalisation -----

  predicate Valid(path: string) {
    forall c :: c in path ==> !IsControl(c)
  }

  datatype Result<+T> = Ok(value: T) | Err

  function NormalForm(path: string): string {
    var parts := Walk([], Split(path));
    if Absolute(path) then "/" + Join(parts)
    else if parts == [] then "."
    else Join(parts)
  }

  function Normalize(path: string): Result<string> {
    if Valid(NormalForm(path)) then Ok(NormalForm(path)) else Err
  }

  method NormalizeRemotePath(path: string) returns (r: Result<string>)
    ensures r == Normalize(path)
  {
    var parts: seq<string> := [];
    var all := Split(path);
    for i := 0 to |all|
      invariant Walk([], all) == Walk(parts, all[i..])
    {
      if all[i] == "" || all[i] == "." {
      } else if all[i] == ".." {
        if parts != [] {
          parts := parts[..|parts| - 1];
        }
      } else {
        parts := parts + [all[i]];
      }
    }
    var normalized :=
      if Absolute(path) then "/" + Join(parts)
      else if parts == [] then "."
      else Join(parts);
    r := if Valid(normalized) then Ok(normalized) else Err;
  }

  /** A normal form is "/", ".", or plain names joined by single slashes. */
  predicate Normal(path: string) {
    || path == "/" || path == "."
    || (Absolute(path) && Split(path)[0] == "" && Names(Split(path)[1..]))
    || (!Absolute(path) && Names(Split(path)))
  }

  lemma NormalFormParts(path: string)
    ensures var parts := Walk([], Split(path)); var n := NormalForm(path);
      && Names(parts) && n != ""
      && Absolute(n) == Absolute(path)
      && (Absolute(path) ==> Split(n) == if parts == [] then ["", ""] else [""] + parts)
      && (!Absolute(path) ==> Split(n) == if parts == [] then ["."] else parts)
  {
    var parts := Walk([], Split(path));
    var n := NormalForm(path);
    WalkGivesNames([], Split(path));
    if parts != [] {
      SplitJoin(parts);
      assert Name(parts[0]);
    }
    if Absolute(path) {
      assert n == "" + "/" + Join(parts);
      SplitAtSlash("", Join(parts));
    } else if parts != [] {
      assert Join(parts)[0] == parts[0][0];
    } else {
      SplitPlain(".");
    }
  }

  lemma NormalFormIsNormal(path: string)
    ensures Normal(NormalForm(path))
  {
    NormalFormParts(path);
    var parts := Walk([], Split(path));
    if Absolute(path) && parts != [] {
      assert ([""] + parts)[1..] == parts;
    }
  }

  /** Walking the normal form from any place where the path climbs nowhere above it. */
  lemma WalkNormalForm(place: seq<string>, path: string)
    ensures Walk(place, Split(NormalForm(path))) == place + Walk([], Split(path))
  {
    NormalFormParts(path);
    var parts := Walk([], Split(path));
    if Absolute(path) && parts == [] {
      assert Walk(place, ["", ""]) == Walk(place, [""]) == place;
    } else if Absolute(path) {
      WalkAppend(place, [""], parts);
      assert Walk(place, [""]) == place;
      WalkOfNames(place, parts);
    } else if parts == [] {
      assert Walk(place, ["."]) == place;
    } else {
      WalkOfNames(place, parts);
    }
  }

  /** Normalising an absolute path keeps where it leads, for everyone. */
  lemma AbsoluteMeaningKept(cwd: seq<string>, path: string)
    requires Absolute(path)
    ensures Absolute(NormalForm(path))
    ensures Destination(cwd, NormalForm(path)) == Destination(cwd, path)
  {
    NormalFormParts(path);
    WalkNormalForm([], path);
  }

  lemma NormalizingTwice(path: string)
    ensures NormalForm(NormalForm(path)) == NormalForm(path)
    ensures Normalize(path).Ok? ==> Normalize(Normalize(path).value) == Normalize(path)
  {
    hide Walk, Split, Join;
    NormalFormParts(path);
    WalkNormalForm([], path);
    assert [] + Walk([], Split(path)) == Walk([], Split(path));
  }

  /** How many `..` in `parts` climb above a start `depth` names down. */
  function Climbs(depth: nat, parts: seq<string>): nat
    decreases |parts|
  {
    if parts == [] then 0
    else if parts[0] == "" || parts[0] == "." then Climbs(depth, parts[1..])
    else if parts[0] == ".." then if depth == 0 then 1 + Climbs(0, parts[1..]) else Climbs(depth - 1, parts[1..])
    else Climbs(depth + 1, parts[1..])
  }

  function DropLast(place: seq<string>, n: nat): seq<string> {
    if n <= |place| then place[..|place| - n] else []
  }

  lemma {:induction false} WalkFromBelow(cwd: seq<string>, local: seq<string>, parts: seq<string>)
    ensures Walk(cwd + local, parts) == DropLast(cwd, Climbs(|local|, parts)) + Walk(local, parts)
    decreases |parts|
  {
    if parts != [] {
      var next := Step(local, parts[0]);
      if parts[0] == ".." && local == [] {
        assert cwd + local == cwd;
        WalkFromBelow(DropLast(cwd, 1), [], parts[1..]);
        assert DropLast(cwd, 1) + [] == Step(cwd, "..");
      } else {
        WalkFromBelow(cwd, next, parts[1..]);
        assert Step(cwd + local, parts[0]) == cwd + next;
      }
    }
  }

  /**
   Normalising a relative path drops the `..` that climb above its start, so it
   keeps the meaning exactly when there are none, or the start is the root.
   */
  lemma RelativeMeaningKeptIff(cwd: seq<string>, path: string)
    requires !Absolute(path)
    ensures Destination(cwd, NormalForm(path)) == Destination(cwd, path)
            <==> cwd == [] || Climbs(0, Split(path)) == 0
  {
    NormalFormParts(path);
    WalkNormalForm(cwd, path);
    WalkFromBelow(cwd, [], Split(path));
    assert cwd + [] == cwd;
  }

  // ----- Joining and resolving -----

  function TrimEndSlashes(s: string): (t: string)
    ensures t <= s && (t == "" || t[|t| - 1] != '/')
  {
    if s != "" && s[|s| - 1] == '/' then TrimEndSlashes(s[..|s| - 1]) else s
  }

  function JoinRemote(parent: string, child: string): string {
    if parent == "/" then "/" + child else TrimEndSlashes(parent) + "/" + child
  }

  lemma {:induction false} TrimmedLeadsToTheSamePlace(place: seq<string>, s: string)
    ensures Walk(place, Split(TrimEndSlashes(s))) == Walk(place, Split(s))
  {
    if s != "" && s[|s| - 1] == '/' {
      var t := s[..|s| - 1];
      TrimmedLeadsToTheSamePlace(place, t);
      assert s == t + "/" + "";
      SplitAtSlash(t, "");
      WalkAppend(place, Split(t), [""]);
    }
  }

  /** Where a join starts: at the parent, and an empty parent counts as the root. */
  function JoinStart(cwd: seq<string>, parent: string): seq<string> {
    if parent == "" then [] else Destination(cwd, parent)
  }

  /** Joining means: first the parent, then the child's components from there. */
  lemma JoinedPathLeadsOn(cwd: seq<string>, parent: string, child: string)
    ensures Absolute(JoinRemote(parent, child)) <==> parent == "" || Absolute(parent)
    ensures Destination(cwd, JoinRemote(parent, child)) == Walk(JoinStart(cwd, parent), Split(child))
  {
    var start := if parent == "" || Absolute(parent) then [] else cwd;
    var t := if parent == "/" then "" else TrimEndSlashes(parent);
    assert JoinRemote(parent, child) == t + "/" + child;
    assert TrimEndSlashes("") == "";
    assert t == TrimEndSlashes(parent) by {
      if parent == "/" {
        assert TrimEndSlashes(parent) == TrimEndSlashes(parent[..0]);
      }
    }
    SplitAtSlash(t, child);
    WalkAppend(start, Split(t), Split(child));
    TrimmedLeadsToTheSamePlace(start, parent);
    if parent == "" {
      assert Walk([], [""]) == [];
    } else if t == "" {
      AllSlashes(parent);
      assert parent[0] in parent;
    } else {
      assert (t + "/" + child)[0] == t[0] == parent[0];
    }
  }

  lemma {:induction false} AllSlashes(s: string)
    requires TrimEndSlashes(s) == ""
    ensures forall c :: c in s ==> c == '/'
  {
    if s != "" {
      AllSlashes(s[..|s| - 1]);
      assert s == s[..|s| - 1] + [s[|s| - 1]];
    }
  }

  /**
   The normal form of a joined path depends only on the normal form of the parent,
   except for the empty parent: it normalises to "." but joins as if it were the root.
   */
  lemma JoinRespectsNormalFormIff(parent: string, child: string)
    ensures NormalForm(JoinRemote(parent, child)) == NormalForm(JoinRemote(NormalForm(parent), child))
            <==> parent != ""
  {
    hide Walk, Split, Join, JoinRemote;
    var n := NormalForm(parent);
    NormalFormParts(parent);
    NormalFormParts(JoinRemote(parent, child));
    NormalFormParts(JoinRemote(n, child));
    JoinedPathLeadsOn([], n, child);
    if parent == "" {
      EmptyParent(child);
    } else {
      JoinedPathLeadsOn([], parent, child);
      WalkNormalForm([], parent);
      assert [] + Walk([], Split(parent)) == Walk([], Split(parent));
    }
  }

  lemma EmptyParent(child: string)
    ensures NormalForm("") == "." && Absolute(JoinRemote("", child))
  {
    assert Walk([], [""]) == [];
    assert JoinRemote("", child) == "" + "/" + child;
  }

  function Candidate(current: string, home: string, path: string): string {
    if path == "" || path == "." then current
    else if path == "~" then home
    else if "~/" <= path then JoinRemote(home, path[2..])
    else if Absolute(path) then path
    else JoinRemote(current, path)
  }

  function ResolveRemotePath(current: string, home: string, path: string): Result<string> {
    if !Valid(path) then Err else Normalize(Candidate(current, home, path))
  }

  /** Where the user means `path` to lead, on a server that starts relative paths at `cwd`. */
  function Intended(cwd: seq<string>, current: string, home: string, path: string): seq<string> {
    if path == "~" then Destination(cwd, home)
    else if "~/" <= path then Walk(Destination(cwd, home), Split(path[2..]))
    else if Absolute(path) then Destination(cwd, path)
    else Walk(Destination(cwd, current), Split(path))
  }

  /** What is joined to an empty directory, if anything is. */
  function JoinedToEmpty(current: string, home: string, path: string): Option<string> {
    if path == "" || path == "." || path == "~" then None
    else if "~/" <= path then if home == "" then Some(path[2..]) else None
    else if current == "" && !Absolute(path) then Some(path)
    else None
  }

  lemma {:induction false} ValidJoin(parts: seq<string>)
    ensures Valid(Join(parts)) <==> forall p :: p in parts ==> Valid(p)
  {
    if |parts| > 1 {
      ValidJoin(parts[1..]);
      assert parts == [parts[0]] + parts[1..];
      ValidConcat(parts[0], "/" + Join(parts[1..]));
      ValidConcat("/", Join(parts[1..]));
      assert parts[0] + ("/" + Join(parts[1..])) == Join(parts);
      assert forall p :: p in parts <==> p == parts[0] || p in parts[1..];
    }
  }

  lemma ValidConcat(a: string, b: string)
    ensures Valid(a + b) <==> Valid(a) && Valid(b)
  {
    assert forall c :: c in a + b <==> c in a || c in b;
  }

  lemma ValidNormalForm(path: string)
    ensures Valid(NormalForm(path)) <==> forall p :: p in Walk([], Split(path)) ==> Valid(p)
  {
    ValidJoin(Walk([], Split(path)));
    ValidConcat("/", Join(Walk([], Split(path))));
  }

  /** The candidate leads where the path was meant to, unless it was joined to an empty directory. */
  lemma CandidateLeads(cwd: seq<string>, current: string, home: string, path: string)
    ensures Destination(cwd, Candidate(current, home, path)) ==
      match JoinedToEmpty(current, home, path)
      case None => Intended(cwd, current, home, path)
      case Some(child) => Walk([], Split(child))
  {
    hide Split, JoinRemote;
    if path == "" || path == "." {
      SplitEmpty();
      SplitPlain(".");
      assert Walk(Destination(cwd, current), [path]) == Destination(cwd, current);
    } else if path != "~" && "~/" <= path {
      JoinedPathLeadsOn(cwd, home, path[2..]);
    } else if path != "~" && !Absolute(path) {
      JoinedPathLeadsOn(cwd, current, path);
    }
  }

  lemma EmptyLeadsNowhere(cwd: seq<string>)
    ensures Destination(cwd, "") == cwd
  {
    SplitEmpty();
    assert Walk(cwd, [""]) == cwd;
  }

  /**
   For all directories, resolving leads where the path was meant to lead exactly when
   nothing that climbs above a start is cut off. Something joined to an empty directory
   starts at the root instead, so there the climb has to reach the root by itself.
   It fails exactly for a control character in the path or in a name on the way.
   */
  lemma ResolvedPathLeadsWhereMeantIff(cwd: seq<string>, current: string, home: string, path: string)
    ensures var c := Candidate(current, home, path);
      match ResolveRemotePath(current, home, path)
      case Err => !Valid(path) || exists p :: p in Walk([], Split(c)) && !Valid(p)
      case Ok(r) =>
        && Valid(path) && (forall p :: p in Walk([], Split(c)) ==> Valid(p)) && Normal(r)
        && (Destination(cwd, r) == Intended(cwd, current, home, path) <==>
            match JoinedToEmpty(current, home, path)
            case Some(child) => |cwd| <= Climbs(0, Split(child))
            case None => Absolute(c) || cwd == [] || Climbs(0, Split(c)) == 0)
  {
    hide Split, Walk, Join, NormalForm, Candidate, Intended, Destination, Normal, Climbs;
    var c := Candidate(current, home, path);
    ValidNormalForm(c);
    NormalFormIsNormal(c);
    CandidateLeads(cwd, current, home, path);
    match JoinedToEmpty(current, home, path) {
      case None => NormalFormLeads(cwd, c);
      case Some(child) =>
        JoinedToEmptyLeads(cwd, current, home, path, child);
        AbsoluteMeaningKept(cwd, c);
        WalkFromBelow(cwd, [], Split(child));
        assert cwd + [] == cwd;
        assert DropLast(cwd, Climbs(0, Split(child))) == [] <==> |cwd| <= Climbs(0, Split(child));
        PrefixIsEmpty(DropLast(cwd, Climbs(0, Split(child))), Walk([], Split(child)));
    }
  }

  lemma PrefixIsEmpty<T>(a: seq<T>, b: seq<T>)
    ensures a + b == b <==> a == []
  {
    assert |a + b| == |a| + |b|;
    assert [] + b == b;
  }

  lemma NormalFormLeads(cwd: seq<string>, path: string)
    ensures Destination(cwd, NormalForm(path)) == Destination(cwd, path)
            <==> Absolute(path) || cwd == [] || Climbs(0, Split(path)) == 0
  {
    hide Destination, NormalForm, Climbs;
    if Absolute(path) {
      AbsoluteMeaningKept(cwd, path);
    } else {
      RelativeMeaningKeptIff(cwd, path);
    }
  }

  lemma JoinedToEmptyLeads(cwd: seq<string>, current: string, home: string, path: string, child: string)
    requires JoinedToEmpty(current, home, path) == Some(child)
    ensures Absolute(Candidate(current, home, path))
    ensures Intended(cwd, current, home, path) == Walk(cwd, Split(child))
  {
    hide Split, Walk, JoinRemote, Destination;
    EmptyLeadsNowhere(cwd);
    JoinedPathLeadsOn(cwd, "", child);
  }

  /** With absolute directories nothing is cut off. */
  lemma ResolvedPathLeadsWhereMeant(cwd: seq<string>, current: string, home: string, path: string)
    requires Absolute(current) && Absolute(home)
    ensures match ResolveRemotePath(current, home, path)
      case Ok(r) => Absolute(r) && Normal(r) && Destination(cwd, r) == Intended(cwd, current, home, path)
      case Err => !Valid(path) || !Valid("/" + Join(Intended(cwd, current, home, path)))
  {
    hide Split, Walk, Join, Normal, Climbs, JoinRemote;
    var c := Candidate(current, home, path);
    assert Absolute(c) by {
      JoinedPathLeadsOn(cwd, home, if |path| >= 2 then path[2..] else path);
      JoinedPathLeadsOn(cwd, current, path);
    }
    CandidateLeads(cwd, current, home, path);
    ResolvedPathLeadsWhereMeantIff(cwd, current, home, path);
    NormalFormParts(c);
  }
}
