/**
 The header tree of the module preparer: `link_target`'s lexical collapse of symlink targets, the checks of
 `read_headers`, and the proof that on an accepted tree the collapse agrees with POSIX path resolution.
 */
module HeaderLinks {
  import opened Prelude
  import opened PosixPath

  datatype Kind = File | Dir | Link(target: string)

  type Entries = map<string, Kind>

  datatype Refusal =
    | UnsafeLink | EscapingLink | ChainedLink | BadParent
    | UnsafeName | DuplicateName | Bounds | UnsupportedType | RootNotDirectory

  predicate IsLink(entries: Entries, name: string) {
    name in entries && entries[name].Link?
  }

  /** The components of the directory that holds `name`. */
  function ParentParts(name: string): (p: seq<string>) {
    if Parts(name) == [] then [] else Parts(name)[..|Parts(name)| - 1]
  }

  predicate SafeText(target: string) {
    target != "" && !IsAbsolute(target) && '\0' !in target && '\\' !in target
  }

  /** What the loop of `link_target` makes of `parts` and the components still to come. */
  function Collapse(parts: seq<string>, todo: seq<string>, entries: Entries): Result<seq<string>, Refusal>
    decreases |todo|
  {
    if todo == [] then Ok(parts)
    else if todo[0] == ".." then
      if parts == [] then Err(EscapingLink) else Collapse(parts[..|parts| - 1], todo[1..], entries)
    else if todo[0] != "." then
      if IsLink(entries, Join(parts + [todo[0]])) then Err(ChainedLink)
      else Collapse(parts + [todo[0]], todo[1..], entries)
    else Collapse(parts, todo[1..], entries)
  }

  function LinkTarget(name: string, target: string, entries: Entries): Result<string, Refusal> {
    if !SafeText(target) then Err(UnsafeLink)
    else
      var collapsed := Collapse(ParentParts(name), Parts(target), entries);
      if collapsed.Err? then Err(collapsed.error) else Ok(Join(collapsed.value))
  }

  /** `link_target`: pushes and pops `parts` component by component. */
  method ResolveLexically(name: string, target: string, entries: Entries) returns (r: Result<string, Refusal>)
    ensures r == LinkTarget(name, target, entries)
  {
    if target == "" || IsAbsolute(target) || '\0' in target || '\\' in target { return Err(UnsafeLink); }
    var parts, todo := ParentParts(name), Parts(target);
    var i := 0;
    while i < |todo|
      invariant 0 <= i <= |todo|
      invariant Collapse(parts, todo[i..], entries) == Collapse(ParentParts(name), Parts(target), entries)
    {
      var part := todo[i];
      assert todo[i..][1..] == todo[i + 1..];
      if part == ".." {
        if parts == [] { return Err(EscapingLink); }
        parts := parts[..|parts| - 1];
      } else if part != "." {
        parts := parts + [part];
        var component := Join(parts);
        if component in entries && entries[component].Link? { return Err(ChainedLink); }
      }
      i := i + 1;
    }
    return Ok(Join(parts));
  }

  /** No recorded ancestor of `name` is anything but a directory. */
  predicate ParentsAreDirectories(name: string, entries: Entries) {
    forall k :: 0 < k < |Parts(name)| ==> Join(Parts(name)[..k]) in entries ==> entries[Join(Parts(name)[..k])].Dir?
  }

  /** What the closing loop of `read_headers` demands. */
  predicate Accepted(entries: Entries) {
    forall name :: name in entries ==>
      && ParentsAreDirectories(name, entries)
      && (entries[name].Link? ==> LinkTarget(name, entries[name].target, entries).Ok?)
  }

  /** The closing loop of `read_headers`, over the selected entries in any order. */
  method CheckSelected(entries: Entries) returns (r: Result<(), Refusal>)
    ensures r.Ok? <==> Accepted(entries)
  {
    var todo := entries.Keys;
    while todo != {}
      invariant todo <= entries.Keys
      invariant forall name :: name in entries && name !in todo ==>
        && ParentsAreDirectories(name, entries)
        && (entries[name].Link? ==> LinkTarget(name, entries[name].target, entries).Ok?)
      decreases todo
    {
      var name :| name in todo;
      if !ParentsAreDirectories(name, entries) { return Err(BadParent); }
      if entries[name].Link? {
        var end := ResolveLexically(name, entries[name].target, entries);
        if end.Err? { return Err(end.error); }
      }
      todo := todo - {name};
    }
    return Ok(());
  }

  // ---------------------------------------------------------------------------------------------
  // POSIX path resolution
  // ---------------------------------------------------------------------------------------------

  /** What a file system holds at a path. */
  datatype Node = Missing | Directory | Regular | Symlink(target: string)

  /** A file system seen from the top of the header tree: what stands at each component path. */
  type FileSystem = seq<string> -> Node

  datatype Ending = Reached(path: seq<string>) | NoEntry | NotADirectory | LeftTheTree | TooManyLinks

  /** How a resolution ends, and whether it followed a symlink on the way. */
  datatype Walk = Walk(ending: Ending, followed: bool)

  /** Component-by-component resolution from the directory `here`, with at most `budget` links followed. A name is
      looked up only in a directory; `..` is the parent of the directory reached, not of the text. */
  function Resolve(fs: FileSystem, here: seq<string>, todo: seq<string>, budget: nat): Walk
    decreases budget, |todo|
  {
    if todo == [] then Walk(Reached(here), false)
    else if here != [] && fs(here) != Directory then Walk(if fs(here) == Missing then NoEntry else NotADirectory, false)
    else if todo[0] == "" || todo[0] == "." then Resolve(fs, here, todo[1..], budget)
    else if todo[0] == ".." then
      if here == [] then Walk(LeftTheTree, false) else Resolve(fs, here[..|here| - 1], todo[1..], budget)
    else
      var there := here + [todo[0]];
      match fs(there)
      case Missing => Walk(NoEntry, false)
      case Symlink(target) =>
        if IsAbsolute(target) then Walk(LeftTheTree, true)
        else if budget == 0 then Walk(TooManyLinks, true)
        else Walk(Resolve(fs, here, Split(target) + todo[1..], budget - 1).ending, true)
      case _ => Resolve(fs, there, todo[1..], budget)
  }

  /** Resolution of a link's target from the directory that holds the link. An absolute target starts at the root of the
      machine, outside the tree; an empty one names nothing. */
  function Follow(fs: FileSystem, here: seq<string>, target: string, budget: nat): Walk {
    if target == "" then Walk(NoEntry, false)
    else if target[0] == '/' then Walk(LeftTheTree, false)
    else Resolve(fs, here, Split(target), budget)
  }

  lemma {:induction false} WalkDown(fs: FileSystem, here: seq<string>, todo: seq<string>, budget: nat)
    requires (forall p :: fs(p) == Directory) && ".." !in todo
    ensures Resolve(fs, here, todo, budget) == Walk(Reached(here + Meaningful(todo)), false)
    decreases |todo|
  {
    if todo == [] {
      assert here + [] == here;
    } else if todo[0] == "" || todo[0] == "." {
      WalkDown(fs, here, todo[1..], budget);
    } else {
      WalkDown(fs, here + [todo[0]], todo[1..], budget);
      assert here + [todo[0]] + Meaningful(todo[1..]) == here + Meaningful(todo);
    }
  }

  /** `archive_path` accepts a well-spelled name without `..` exactly when a walk along it, where everything is a
      directory, stays inside and gets somewhere; and then gives the joined components of the place reached. */
  lemma ArchivePathIsWalk(name: string, fs: FileSystem, budget: nat)
    requires forall p :: fs(p) == Directory
    ensures var walk := Follow(fs, [], name, budget);
            && (ArchivePath(name).Ok? <==>
                && '\0' !in name && '\\' !in name && ".." !in Split(name)
                && walk.ending.Reached? && walk.ending.path != [])
            && (ArchivePath(name).Ok? ==> ArchivePath(name) == Ok(Join(walk.ending.path)))
  {
    MeaningfulMembers(Split(name));
    if ".." !in Split(name) {
      WalkDown(fs, [], Split(name), budget);
      assert [] + Parts(name) == Parts(name);
      PathIsDot(name);
    }
    hide Resolve, Split, Join, Meaningful;
  }

  lemma PathIsDot(name: string)
    ensures PathText(name) == "." <==> Parts(name) == []
  {
    if Parts(name) != [] {
      MeaningfulMembers(Split(name));
      JoinSplit(name);
      forall i | 0 <= i < |Parts(name)| ensures '/' !in Parts(name)[i] { assert Parts(name)[i] in Split(name); }
      NotADot(Parts(name));
    }
  }

  lemma NotADot(parts: seq<string>)
    requires parts != [] && "." !in parts && forall i :: 0 <= i < |parts| ==> '/' !in parts[i]
    ensures Join(parts) != "."
  {
    SplitJoin(parts);
    SplitNone(".");
    assert "." in ["."];
    hide Split, Join;
  }

  /** The symlinks of `fs` are exactly the selected ones; files and directories may or may not be there. */
  ghost predicate SameLinks(fs: FileSystem, entries: Entries) {
    forall p :: p != [] && AllPlain(p) ==> (fs(p).Symlink? <==> IsLink(entries, Join(p)))
  }

  /** A walk that met no link and stayed inside the tree. */
  predicate Contained(w: Walk) {
    !w.followed && w.ending != LeftTheTree && w.ending != TooManyLinks
  }

  /** Every component the loop can push stands for itself. */
  ghost predicate Walkable(todo: seq<string>) {
    forall i :: 0 <= i < |todo| ==> todo[i] == "" || todo[i] == "." || todo[i] == ".." || Plain(todo[i])
  }

  lemma TargetWalkable(target: string)
    requires SafeText(target)
    ensures Walkable(Split(target))
  {
    JoinSplit(target);
  }

  lemma PlainPush(parts: seq<string>, c: string)
    requires AllPlain(parts) && Plain(c)
    ensures AllPlain(parts + [c])
  {
  }

  /** Where the collapse succeeds, a walk is contained, and ends at the collapsed path if it ends at all. */
  lemma {:induction false} CollapseIsWalk(fs: FileSystem, entries: Entries, here: seq<string>, todo: seq<string>, budget: nat)
    requires SameLinks(fs, entries) && AllPlain(here) && Walkable(todo)
    requires Collapse(here, Meaningful(todo), entries).Ok?
    ensures var walk := Resolve(fs, here, todo, budget);
            && Contained(walk)
            && (walk.ending.Reached? ==> walk.ending.path == Collapse(here, Meaningful(todo), entries).value)
    decreases |todo|
  {
    if todo != [] && (here == [] || fs(here) == Directory) {
      assert Walkable(todo[1..]);
      var c := todo[0];
      if c == "" || c == "." {
        CollapseIsWalk(fs, entries, here, todo[1..], budget);
      } else {
        assert Meaningful(todo)[0] == c && Meaningful(todo)[1..] == Meaningful(todo[1..]);
        if c == ".." {
          CollapseIsWalk(fs, entries, here[..|here| - 1], todo[1..], budget);
        } else {
          assert Plain(c);
          PlainPush(here, c);
          CollapseIsWalk(fs, entries, here + [c], todo[1..], budget);
        }
      }
    }
  }

  /** The file system in which every name that is not a selected link is a directory. */
  ghost function Fullest(entries: Entries): FileSystem {
    (p: seq<string>) => if p != [] && IsLink(entries, Join(p)) then Symlink(entries[Join(p)].target) else Directory
  }

  /** Where the collapse fails, some file system with the same links lets the walk out or through a link. */
  lemma {:induction false} RefusalHasReason(entries: Entries, here: seq<string>, todo: seq<string>, budget: nat)
    requires AllPlain(here) && Walkable(todo) && (here == [] || !IsLink(entries, Join(here)))
    requires forall k :: 0 < k <= |here| ==> !IsLink(entries, Join(here[..k]))
    requires Collapse(here, Meaningful(todo), entries).Err?
    ensures !Contained(Resolve(Fullest(entries), here, todo, budget))
    decreases |todo|
  {
    hide Join, SameLinks;
    var c := todo[0];
    assert Walkable(todo[1..]);
    if c == "" || c == "." {
      RefusalHasReason(entries, here, todo[1..], budget);
    } else {
      assert Meaningful(todo)[0] == c && Meaningful(todo)[1..] == Meaningful(todo[1..]);
      if c == ".." {
        if here != [] {
          var up := here[..|here| - 1];
          forall k | 0 < k <= |up| ensures !IsLink(entries, Join(up[..k])) { assert up[..k] == here[..k]; }
          assert up == up[..|up|];
          RefusalHasReason(entries, up, todo[1..], budget);
        }
      } else {
        var there := here + [c];
        assert Plain(c);
        PlainPush(here, c);
        if !IsLink(entries, Join(there)) {
          forall k | 0 < k <= |there| ensures !IsLink(entries, Join(there[..k])) {
            assert k <= |here| ==> there[..k] == here[..k];
            assert k == |there| ==> there[..k] == there;
          }
          RefusalHasReason(entries, there, todo[1..], budget);
        }
      }
    }
  }

  lemma FullestHasSameLinks(entries: Entries)
    ensures SameLinks(Fullest(entries), entries)
  {
  }

  lemma ParentPlain(name: string)
    requires Canonical(name)
    ensures AllPlain(ParentParts(name))
  {
    CanonicalIsJoined(name);
  }

  lemma {:induction false} MeaningfulConcat(a: seq<string>, b: seq<string>)
    requires AllPlain(a)
    ensures Meaningful(a + b) == a + Meaningful(b)
  {
    if a == [] {
      assert a + b == b;
    } else {
      assert (a + b)[1..] == a[1..] + b && (a + b)[0] == a[0];
      MeaningfulConcat(a[1..], b);
      assert [a[0]] + (a[1..] + Meaningful(b)) == a + Meaningful(b);
    }
  }

  /** Going down to `parent`, whose recorded ancestors are no links, only pushes. */
  lemma {:induction false} CollapseDown(entries: Entries, parent: seq<string>, k: nat, rest: seq<string>)
    requires k <= |parent| && AllPlain(parent)
    requires forall j :: 0 < j <= |parent| ==> !IsLink(entries, Join(parent[..j]))
    ensures Collapse(parent[..k], parent[k..] + rest, entries) == Collapse(parent, rest, entries)
    decreases |parent| - k
  {
    hide Join;
    if k == |parent| {
      assert parent[..k] == parent && parent[k..] + rest == rest;
    } else {
      var todo := parent[k..] + rest;
      assert todo[0] == parent[k] && todo[1..] == parent[k + 1..] + rest;
      assert parent[..k] + [parent[k]] == parent[..k + 1];
      assert Plain(parent[k]) && !IsLink(entries, Join(parent[..k + 1]));
      CollapseDown(entries, parent, k + 1, rest);
    }
  }

  /** Lexical equals physical. On an accepted tree, in any file system with exactly the selected symlinks, resolving
      the target of any link, whether from the directory that holds it or all the way down from the top of the tree,
      meets no other link and never leaves the tree; and when it succeeds it ends at the path that `link_target`
      returns. */
  lemma LexicalIsPhysical(entries: Entries, name: string, fs: FileSystem, budget: nat)
    requires Accepted(entries) && IsLink(entries, name) && Canonical(name) && SameLinks(fs, entries)
    ensures var target := entries[name].target;
            var walk := Follow(fs, ParentParts(name), target, budget);
            var descent := Resolve(fs, [], ParentParts(name) + Split(target), budget);
            && Contained(walk) && Contained(descent)
            && (walk.ending.Reached? ==> LinkTarget(name, target, entries) == Ok(Join(walk.ending.path)))
            && (descent.ending.Reached? ==> LinkTarget(name, target, entries) == Ok(Join(descent.ending.path)))
  {
    var parent, todo := ParentParts(name), Split(entries[name].target);
    ParentPlain(name);
    TargetWalkable(entries[name].target);
    ParentsNotLinks(entries, name);
    hide SameLinks, Join, Split, Resolve;
    assert Follow(fs, parent, entries[name].target, budget) == Resolve(fs, parent, todo, budget);
    CollapseIsWalk(fs, entries, parent, todo, budget);
    MeaningfulConcat(parent, todo);
    CollapseDown(entries, parent, 0, Meaningful(todo));
    assert parent[..0] == [] && parent[0..] == parent;
    CollapseIsWalk(fs, entries, [], parent + todo, budget);
  }

  /** `link_target` refuses nothing it could accept: with the ancestors checked, it accepts a well-spelled target if
      and only if the walk is contained in every file system that has exactly the selected links. */
  lemma LinkTargetExact(entries: Entries, name: string, target: string, budget: nat)
    requires Canonical(name) && ParentsAreDirectories(name, entries)
    ensures LinkTarget(name, target, entries).Ok? <==>
            target != "" && '\0' !in target && '\\' !in target && StaysInside(entries, name, target, budget)
  {
    FullestHasSameLinks(entries);
    hide SameLinks, Join, Split, Resolve;
    if SafeText(target) {
      ParentPlain(name);
      TargetWalkable(target);
      var parent := ParentParts(name);
      if LinkTarget(name, target, entries).Ok? {
        forall fs | SameLinks(fs, entries) ensures Inside(fs, name, target, budget) {
          CollapseIsWalk(fs, entries, parent, Split(target), budget);
        }
      } else {
        ParentsNotLinks(entries, name);
        RefusalHasReason(entries, parent, Split(target), budget);
        assert !Inside(Fullest(entries), name, target, budget);
      }
    } else {
      assert IsAbsolute(target) ==> !Inside(Fullest(entries), name, target, budget);
    }
  }

  /** In every file system that has exactly the selected links, following the link `name` to `target` meets no link and
      does not leave the tree. */
  ghost predicate StaysInside(entries: Entries, name: string, target: string, budget: nat) {
    forall fs :: SameLinks(fs, entries) ==> Inside(fs, name, target, budget)
  }

  /** So it does in this one. */
  predicate Inside(fs: FileSystem, name: string, target: string, budget: nat) {
    Contained(Follow(fs, ParentParts(name), target, budget))
  }

  /** The closing loop accepts a tree exactly when every recorded ancestor is a directory and every link is spelled well
      and stays inside. */
  lemma AcceptedExact(entries: Entries, budget: nat)
    requires forall name :: name in entries ==> Canonical(name)
    ensures Accepted(entries) <==>
            forall name :: name in entries ==>
              && ParentsAreDirectories(name, entries)
              && (entries[name].Link? ==>
                    var target := entries[name].target;
                    target != "" && '\0' !in target && '\\' !in target && StaysInside(entries, name, target, budget))
  {
    hide Canonical, ParentsAreDirectories, LinkTarget, StaysInside;
    forall name | name in entries && ParentsAreDirectories(name, entries) && entries[name].Link?
      ensures var target := entries[name].target;
              LinkTarget(name, target, entries).Ok? <==>
              target != "" && '\0' !in target && '\\' !in target && StaysInside(entries, name, target, budget)
    {
      LinkTargetExact(entries, name, entries[name].target, budget);
    }
  }

  lemma ParentsNotLinks(entries: Entries, name: string)
    requires ParentsAreDirectories(name, entries)
    ensures forall k :: 0 < k <= |ParentParts(name)| ==> !IsLink(entries, Join(ParentParts(name)[..k]))
    ensures ParentParts(name) == [] || !IsLink(entries, Join(ParentParts(name)))
  {
    var parent := ParentParts(name);
    forall k | 0 < k <= |parent| ensures !IsLink(entries, Join(parent[..k])) { assert parent[..k] == Parts(name)[..k]; }
    assert parent == parent[..|parent|];
  }

  // ---------------------------------------------------------------------------------------------
  // Selecting the header tree
  // ---------------------------------------------------------------------------------------------

  const HEADERS: string := "linux-headers-6.18.56-0-lts"
  const HEADER_ROOT: string := "usr" + "/" + "src" + "/" + HEADERS
  const PACKAGE_INFO: string := ".PKGINFO"

  datatype MemberKind = RegularFile | DirectoryMember | SymlinkMember(target: string) | SpecialMember

  /** A member as the TAR reader yields it. */
  datatype Member = Member(name: string, size: int, kind: MemberKind)

  datatype Limits = Limits(count: int, individual: int, total: int)

  predicate IsHeader(name: string) {
    name == HEADER_ROOT || HEADER_ROOT + "/" <= name
  }

  function KindOf(kind: MemberKind): Kind {
    match kind
    case RegularFile => File
    case DirectoryMember => Dir
    case SymlinkMember(target) => Link(target)
    case SpecialMember => File
  }

  /** The place of a member inside the header tree, if it has one. */
  function KeyOf(m: Member): Option<string> {
    var name := ArchivePath(m.name);
    if name.Ok? && HEADER_ROOT + "/" <= name.value then Some(name.value[|HEADER_ROOT| + 1..]) else None
  }

  /** What a member is recorded as: a symlink as a link to its own target, a directory as a directory, and a regular file
      as a file. Anything else is refused before. */
  predicate RecordedAs(kind: MemberKind, entry: Kind) {
    && (kind.SymlinkMember? ==> entry == Link(kind.target))
    && (kind.DirectoryMember? ==> entry == Dir)
    && (kind.RegularFile? ==> entry == File)
    && (kind.SpecialMember? ==> entry == File)
  }

  /** `entries` holds exactly the header members among the first `n`, each under its own canonical key. */
  ghost predicate Selects(members: seq<Member>, n: nat, entries: Entries)
    requires n <= |members|
  {
    && (forall i :: 0 <= i < n && KeyOf(members[i]).Some? ==>
          KeyOf(members[i]).value in entries && RecordedAs(members[i].kind, entries[KeyOf(members[i]).value]))
    && (forall key :: key in entries ==> Canonical(key) && exists i :: 0 <= i < n && KeyOf(members[i]) == Some(key))
  }

  lemma PrefixThenRest(prefix: string, name: string)
    requires prefix <= name
    ensures prefix + name[|prefix|..] == name
  {
  }

  lemma KeyNames(m: Member)
    requires KeyOf(m).Some?
    ensures ArchivePath(m.name) == Ok(HEADER_ROOT + "/" + KeyOf(m).value)
  {
    hide ArchivePath;
    PrefixThenRest(HEADER_ROOT + "/", ArchivePath(m.name).value);
  }

  lemma CanonicalTail(a: string, b: string, c: string, key: string)
    requires '/' !in a && '/' !in b && '/' !in c && Canonical(a + "/" + b + "/" + c + "/" + key)
    ensures Canonical(key)
  {
    hide Split, Canonical, Join;
    var name := a + "/" + b + "/" + c + "/" + key;
    CanonicalSplit(name);
    SplitThree(a, b, c, key);
    JoinSplit(key);
    var parts := Split(key);
    forall i | 0 <= i < |parts| ensures Plain(parts[i]) { assert Split(name)[3 + i] == parts[i]; }
    JoinedIsCanonical(parts);
  }

  lemma RootSlashFree()
    ensures '/' !in "usr" && '/' !in "src" && '/' !in HEADERS
  {
  }

  lemma KeyIsCanonical(m: Member, key: string)
    requires KeyOf(m) == Some(key)
    ensures Canonical(key)
  {
    KeyNames(m);
    ArchivePathCanonical(m.name);
    RootSlashFree();
    hide ArchivePath, Canonical;
    CanonicalTail("usr", "src", HEADERS, key);
  }

  lemma CanonicalSplit(name: string)
    requires Canonical(name)
    ensures AllPlain(Split(name))
  {
    CanonicalIsJoined(name);
    SplitJoin(Parts(name));
  }

  lemma SplitThree(a: string, b: string, c: string, key: string)
    requires '/' !in a && '/' !in b && '/' !in c
    ensures Split(a + "/" + b + "/" + c + "/" + key) == [a, b, c] + Split(key)
  {
    hide Split;
    SplitAfter(c, key);
    SplitAfter(b, c + "/" + key);
    SplitAfter(a, b + "/" + (c + "/" + key));
    Regroup(a, b, c, key);
  }

  lemma Regroup(a: string, b: string, c: string, key: string)
    ensures a + "/" + b + "/" + c + "/" + key == a + "/" + (b + "/" + (c + "/" + key))
  {
  }

  lemma SelectsNext(members: seq<Member>, i: nat, entries: Entries, key: string, entry: Kind)
    requires i < |members| && RecordedAs(members[i].kind, entry)
    requires i < |members| && Selects(members, i, entries) && KeyOf(members[i]) == Some(key) && Canonical(key)
    requires forall j :: 0 <= j < i && KeyOf(members[j]).Some? ==> KeyOf(members[j]).value != key
    ensures Selects(members, i + 1, entries[key := entry])
  {
    hide KeyOf, Canonical, RecordedAs;
  }

  lemma SelectsUnique(members: seq<Member>, a: Entries, b: Entries)
    requires Selects(members, |members|, a) && Selects(members, |members|, b)
    ensures a == b
  {
    hide KeyOf, Canonical;
    assert a.Keys == b.Keys;
    forall key | key in a ensures a[key] == b[key] {
      var i :| 0 <= i < |members| && KeyOf(members[i]) == Some(key);
    }
  }

  // ---------------------------------------------------------------------------------------------
  // From the members to the file system
  // ---------------------------------------------------------------------------------------------

  /** Member `i` is a symlink at `path` inside the header tree. */
  ghost predicate LinkAt(members: seq<Member>, i: nat, path: string) {
    i < |members| && ArchivePath(members[i].name) == Ok(HEADER_ROOT + "/" + path) && members[i].kind.SymlinkMember?
  }

  /** A file system whose symlinks are exactly those among the members. */
  ghost predicate HasLinksOf(fs: FileSystem, members: seq<Member>) {
    forall p :: p != [] && AllPlain(p) ==> (fs(p).Symlink? <==> exists i: nat :: LinkAt(members, i, Join(p)))
  }

  lemma KeyIs(m: Member, path: string)
    ensures KeyOf(m) == Some(path) <==> ArchivePath(m.name) == Ok(HEADER_ROOT + "/" + path)
  {
    hide ArchivePath;
    if ArchivePath(m.name) == Ok(HEADER_ROOT + "/" + path) {
      assert (HEADER_ROOT + "/" + path)[|HEADER_ROOT| + 1..] == path;
    } else if KeyOf(m) == Some(path) {
      KeyNames(m);
    }
  }

  lemma LinksAreMembers(members: seq<Member>, entries: Entries, path: string)
    requires Selects(members, |members|, entries)
    ensures IsLink(entries, path) <==> exists i: nat :: LinkAt(members, i, path)
  {
    forall i | 0 <= i < |members| ensures KeyOf(members[i]) == Some(path) <==>
                                          ArchivePath(members[i].name) == Ok(HEADER_ROOT + "/" + path)
    {
      KeyIs(members[i], path);
    }
    hide KeyOf, Canonical, ArchivePath, HEADER_ROOT;
    if IsLink(entries, path) {
      var i :| 0 <= i < |members| && KeyOf(members[i]) == Some(path);
      assert LinkAt(members, i, path);
    }
    if exists i: nat :: LinkAt(members, i, path) {
      var i: nat :| LinkAt(members, i, path);
    }
  }

  lemma SameLinksAsMembers(members: seq<Member>, entries: Entries, fs: FileSystem)
    requires Selects(members, |members|, entries)
    ensures SameLinks(fs, entries) <==> HasLinksOf(fs, members)
  {
    hide Selects, LinkAt, IsLink, Join, AllPlain;
    forall p ensures IsLink(entries, Join(p)) <==> exists i: nat :: LinkAt(members, i, Join(p)) {
      LinksAreMembers(members, entries, Join(p));
    }
  }

  /** Member `i` stands at `path` inside the header tree. */
  ghost predicate MemberAt(members: seq<Member>, i: nat, path: string) {
    i < |members| && ArchivePath(members[i].name) == Ok(HEADER_ROOT + "/" + path)
  }

  /** Following symlink member `i` at `path`, by its own target and from the directory it stands in, meets no other link
      and does not leave the header tree, in every file system whose symlinks are those of the members. */
  ghost predicate LinkStaysInside(members: seq<Member>, i: nat, path: string)
    requires LinkAt(members, i, path)
  {
    forall fs, budget: nat :: HasLinksOf(fs, members) ==> Inside(fs, path, members[i].kind.target, budget)
  }

  /** A member that stands above another one is a directory. */
  ghost predicate AboveIsDirectory(members: seq<Member>, path: string) {
    forall k, i: nat :: 0 < k < |Parts(path)| && MemberAt(members, i, Join(Parts(path)[..k])) ==> members[i].kind.DirectoryMember?
  }

  /** A header tree that can be unpacked: what stands above a member is a directory, and every symlink is spelled well and
      stays inside. */
  ghost predicate TreeSound(members: seq<Member>) {
    && (forall i: nat, path :: MemberAt(members, i, path) ==> AboveIsDirectory(members, path))
    && (forall i: nat, path :: LinkAt(members, i, path) ==>
          var target := members[i].kind.target;
          target != "" && '\0' !in target && '\\' !in target && LinkStaysInside(members, i, path))
  }

  lemma MemberRecorded(members: seq<Member>, entries: Entries, i: nat, path: string)
    requires Selects(members, |members|, entries) && MemberAt(members, i, path)
    ensures path in entries && RecordedAs(members[i].kind, entries[path])
  {
    KeyIs(members[i], path);
    hide KeyOf, ArchivePath, RecordedAs;
  }

  lemma RecordedIsMember(members: seq<Member>, entries: Entries, path: string) returns (i: nat)
    requires Selects(members, |members|, entries) && path in entries
    ensures MemberAt(members, i, path) && RecordedAs(members[i].kind, entries[path]) && Canonical(path)
  {
    hide KeyOf, ArchivePath, RecordedAs, Canonical;
    i :| 0 <= i < |members| && KeyOf(members[i]) == Some(path);
    KeyIs(members[i], path);
  }

  lemma ParentsOfMembers(members: seq<Member>, entries: Entries, path: string)
    requires Selects(members, |members|, entries)
    ensures ParentsAreDirectories(path, entries) <==> AboveIsDirectory(members, path)
  {
    MembersIndexed(members);
    hide Selects, Join, Parts, MemberAt;
    var parts := Parts(path);
    if AboveIsDirectory(members, path) {
      forall k | 0 < k < |parts| && Join(parts[..k]) in entries ensures entries[Join(parts[..k])].Dir? {
        var i := RecordedIsMember(members, entries, Join(parts[..k]));
      }
    }
    if ParentsAreDirectories(path, entries) {
      forall k, i: nat | 0 < k < |parts| && MemberAt(members, i, Join(parts[..k])) ensures members[i].kind.DirectoryMember? {
        MemberIndex(members, i, Join(parts[..k]));
        MemberRecorded(members, entries, i, Join(parts[..k]));
      }
    }
  }

  lemma MembersIndexed(members: seq<Member>)
    ensures forall i: nat, path :: MemberAt(members, i, path) ==> i < |members|
  {
  }

  lemma MemberIndex(members: seq<Member>, i: nat, path: string)
    requires MemberAt(members, i, path)
    ensures i < |members|
  {
  }

  lemma LinkOfMember(members: seq<Member>, entries: Entries, i: nat, path: string)
    requires Selects(members, |members|, entries) && LinkAt(members, i, path)
    ensures path in entries && entries[path] == Link(members[i].kind.target)
  {
    hide Selects, ArchivePath;
    assert MemberAt(members, i, path);
    MemberRecorded(members, entries, i, path);
  }

  lemma LinkStays(members: seq<Member>, entries: Entries, i: nat, path: string)
    requires Selects(members, |members|, entries) && LinkAt(members, i, path)
    ensures LinkStaysInside(members, i, path) <==>
            forall budget: nat :: StaysInside(entries, path, members[i].kind.target, budget)
  {
    LinkIndex(members, i, path);
    hide Selects, LinkAt, SameLinks, HasLinksOf, Inside;
    var target := members[i].kind.target;
    if LinkStaysInside(members, i, path) {
      forall budget: nat, fs | SameLinks(fs, entries) ensures Inside(fs, path, target, budget) {
        SameLinksAsMembers(members, entries, fs);
      }
    }
    if forall budget: nat :: StaysInside(entries, path, target, budget) {
      forall fs, budget: nat | HasLinksOf(fs, members) ensures Inside(fs, path, target, budget) {
        SameLinksAsMembers(members, entries, fs);
        assert StaysInside(entries, path, target, budget);
      }
    }
  }

  /** What the checks of the closing loop amount to, from the archive's members to the file systems that they can be
      unpacked to: a tree is accepted exactly when it is sound. */
  lemma AcceptedIsSound(members: seq<Member>, entries: Entries)
    requires Selects(members, |members|, entries)
    ensures Accepted(entries) <==> TreeSound(members)
  {
    hide Selects, LinkAt, MemberAt, Accepted, StaysInside, ParentsAreDirectories, AboveIsDirectory, LinkStaysInside,
         Canonical;
    if Accepted(entries) { AcceptedIsUnpackable(members, entries); }
    if TreeSound(members) { SoundIsAccepted(members, entries); }
  }

  lemma EntriesCanonical(members: seq<Member>, entries: Entries)
    requires Selects(members, |members|, entries)
    ensures forall name :: name in entries ==> Canonical(name)
  {
    hide Canonical, KeyOf;
  }

  lemma AcceptedIsUnpackable(members: seq<Member>, entries: Entries)
    requires Selects(members, |members|, entries) && Accepted(entries)
    ensures TreeSound(members)
  {
    EntriesCanonical(members, entries);
    hide Selects, LinkAt, MemberAt, Accepted, StaysInside, ParentsAreDirectories, AboveIsDirectory, LinkStaysInside,
         Canonical;
    AcceptedExact(entries, 0);
    forall i: nat, path | MemberAt(members, i, path) ensures AboveIsDirectory(members, path) {
      MemberIndex(members, i, path);
      MemberRecorded(members, entries, i, path);
      ParentsOfMembers(members, entries, path);
    }
    forall i: nat, path | LinkAt(members, i, path)
      ensures var target := LinkTo(members, i, path);
              target != "" && '\0' !in target && '\\' !in target && LinkStaysInside(members, i, path)
    {
      LinkIndex(members, i, path);
      LinkOfMember(members, entries, i, path);
      LinkStays(members, entries, i, path);
      forall budget: nat ensures StaysInside(entries, path, members[i].kind.target, budget) {
        AcceptedExact(entries, budget);
      }
    }
    LinksIndexed(members);
  }

  /** The target of the symlink member. */
  ghost function LinkTo(members: seq<Member>, i: nat, path: string): string
    requires LinkAt(members, i, path)
  {
    members[i].kind.target
  }

  lemma LinkIndex(members: seq<Member>, i: nat, path: string)
    requires LinkAt(members, i, path)
    ensures i < |members| && members[i].kind.SymlinkMember? && MemberAt(members, i, path)
  {
  }

  lemma LinksIndexed(members: seq<Member>)
    ensures forall i: nat, path :: LinkAt(members, i, path) ==> i < |members| && members[i].kind.SymlinkMember?
  {
  }

  lemma SoundIsAccepted(members: seq<Member>, entries: Entries)
    requires Selects(members, |members|, entries) && TreeSound(members)
    ensures Accepted(entries)
  {
    EntriesCanonical(members, entries);
    LinksIndexed(members);
    hide Selects, LinkAt, Accepted, StaysInside, ParentsAreDirectories, AboveIsDirectory, LinkStaysInside, Canonical;
    AcceptedExact(entries, 0);
    forall name | name in entries
      ensures ParentsAreDirectories(name, entries)
      ensures entries[name].Link? ==>
                var target := entries[name].target;
                target != "" && '\0' !in target && '\\' !in target && StaysInside(entries, name, target, 0)
    {
      var i := RecordedIsMember(members, entries, name);
      ParentsOfMembers(members, entries, name);
      if entries[name].Link? {
        MemberIsLink(members, i, name);
        LinkOfMember(members, entries, i, name);
        LinkStays(members, entries, i, name);
      }
    }
  }

  lemma MemberIsLink(members: seq<Member>, i: nat, path: string)
    requires MemberAt(members, i, path) && members[i].kind.SymlinkMember?
    ensures LinkAt(members, i, path)
  {
  }

  // ---------------------------------------------------------------------------------------------
  // The loop over the members
  // ---------------------------------------------------------------------------------------------

  function TotalSize(members: seq<Member>, n: nat): int
    requires n <= |members|
  {
    if n == 0 then 0 else TotalSize(members, n - 1) + members[n - 1].size
  }

  /** What one member must be like on its own. */
  predicate MemberFine(m: Member, limits: Limits) {
    var name := ArchivePath(m.name);
    && name.Ok?
    && 0 <= m.size <= limits.individual
    && (IsHeader(name.value) ==> !m.kind.SpecialMember?)
    && (name.value == PACKAGE_INFO ==> m.kind.RegularFile?)
    && (name.value == HEADER_ROOT ==> m.kind.DirectoryMember?)
  }

  /** The canonical paths of the first `n` members. */
  function PathsOf(members: seq<Member>, n: nat): set<string>
    requires n <= |members|
  {
    if n == 0 then {}
    else
      var path := ArchivePath(members[n - 1].name);
      PathsOf(members, n - 1) + if path.Ok? then {path.value} else {}
  }

  lemma {:induction false} PathsOfHas(members: seq<Member>, n: nat, j: nat)
    requires j < n <= |members| && ArchivePath(members[j].name).Ok?
    ensures ArchivePath(members[j].name).value in PathsOf(members, n)
  {
    if j < n - 1 { PathsOfHas(members, n - 1, j); }
  }

  /** The first `n` members are fine, none repeats an earlier path, and the running count and total stay within the
      limits. */
  predicate Readable(members: seq<Member>, n: nat, limits: Limits)
    requires n <= |members|
  {
    n == 0 ||
    (&& Readable(members, n - 1, limits)
     && MemberFine(members[n - 1], limits)
     && ArchivePath(members[n - 1].name).value !in PathsOf(members, n - 1)
     && n <= limits.count
     && TotalSize(members, n) <= limits.total)
  }

  lemma ReadableNext(members: seq<Member>, i: nat, limits: Limits)
    requires i < |members|
    ensures var path := ArchivePath(members[i].name);
            && (path.Ok? ==> PathsOf(members, i + 1) == PathsOf(members, i) + {path.value})
            && TotalSize(members, i + 1) == TotalSize(members, i) + members[i].size
            && (Readable(members, i + 1, limits) <==>
                && Readable(members, i, limits) && MemberFine(members[i], limits)
                && (path.Ok? ==> path.value !in PathsOf(members, i))
                && i + 1 <= limits.count && TotalSize(members, i + 1) <= limits.total)
  {
    FineHasPath(members[i], limits);
    hide ArchivePath, MemberFine;
  }

  lemma {:induction false} NotReadable(members: seq<Member>, i: nat, n: nat, limits: Limits)
    requires i < n <= |members| && !Readable(members, i + 1, limits)
    ensures !Readable(members, n, limits)
    decreases n
  {
    if i + 1 < n {
      ReadableNext(members, n - 1, limits);
      hide Readable, MemberFine, PathsOf, TotalSize, ArchivePath;
      NotReadable(members, i, n - 1, limits);
    }
  }

  lemma ReadableWhole(members: seq<Member>, i: nat, limits: Limits)
    requires i < |members|
    ensures Readable(members, |members|, limits) ==> Readable(members, i + 1, limits)
  {
    if !Readable(members, i + 1, limits) { NotReadable(members, i, |members|, limits); }
  }

  lemma SelectsSkip(members: seq<Member>, i: nat, entries: Entries)
    requires i < |members| && Selects(members, i, entries) && KeyOf(members[i]).None?
    ensures Selects(members, i + 1, entries)
  {
    hide KeyOf, Canonical;
  }

  /** A header member below the root has a key of its own. */
  lemma SelectsMember(members: seq<Member>, i: nat, entries: Entries, key: string, entry: Kind)
    requires i < |members| && RecordedAs(members[i].kind, entry)
    requires i < |members| && Selects(members, i, entries) && KeyOf(members[i]) == Some(key)
    requires ArchivePath(members[i].name).Ok? && ArchivePath(members[i].name).value !in PathsOf(members, i)
    ensures Selects(members, i + 1, entries[key := entry])
  {
    KeyIsCanonical(members[i], key);
    forall j | 0 <= j < i && KeyOf(members[j]).Some? ensures KeyOf(members[j]).value != key {
      KeyNames(members[j]);
      KeyNames(members[i]);
      PathsOfHas(members, i, j);
    }
    SelectsNext(members, i, entries, key, entry);
  }

  lemma KeyExists(m: Member)
    requires ArchivePath(m.name).Ok?
    ensures var name := ArchivePath(m.name).value;
            && !IsHeader(PACKAGE_INFO)
            && (KeyOf(m).None? <==> !IsHeader(name) || name == HEADER_ROOT)
            && (KeyOf(m).Some? ==> |name| > |HEADER_ROOT| && KeyOf(m).value == name[|HEADER_ROOT| + 1..])
  {
    hide ArchivePath;
  }

  /** `more` is `entries` with the member under its key, if it has one. */
  ghost predicate Taken(m: Member, entries: Entries, more: Entries) {
    match KeyOf(m)
    case None => more == entries
    case Some(key) => exists entry :: RecordedAs(m.kind, entry) && more == entries[key := entry]
  }

  lemma SelectsTaken(members: seq<Member>, i: nat, entries: Entries, more: Entries)
    requires i < |members| && Selects(members, i, entries) && Taken(members[i], entries, more)
    requires ArchivePath(members[i].name).Ok? && ArchivePath(members[i].name).value !in PathsOf(members, i)
    ensures Selects(members, i + 1, more)
  {
    hide ArchivePath, Selects, KeyOf, RecordedAs;
    if KeyOf(members[i]).Some? {
      var key := KeyOf(members[i]).value;
      var entry :| RecordedAs(members[i].kind, entry) && more == entries[key := entry];
      SelectsMember(members, i, entries, key, entry);
    } else {
      SelectsSkip(members, i, entries);
    }
  }

  /** The body of the loop over members, once the path is known to be new. */
  method TakeMember(m: Member, name: string, limits: Limits, count: int, total: int, entries: Entries)
    returns (r: Result<Entries, Refusal>)
    requires ArchivePath(m.name) == Ok(name)
    ensures r.Ok? <==> MemberFine(m, limits) && count <= limits.count && total <= limits.total
    ensures r.Ok? ==> Taken(m, entries, r.value)
  {
    KeyExists(m);
    hide ArchivePath;
    if count > limits.count || m.size < 0 || m.size > limits.individual || total > limits.total { return Err(Bounds); }
    var isHeader := IsHeader(name);
    if !isHeader && name != PACKAGE_INFO { return Ok(entries); }
    if !(m.kind.RegularFile? || (isHeader && (m.kind.DirectoryMember? || m.kind.SymlinkMember?))) {
      return Err(UnsupportedType);
    }
    var entry := KindOf(m.kind);
    if name == PACKAGE_INFO { return Ok(entries); }
    if name == HEADER_ROOT {
      if !entry.Dir? { return Err(RootNotDirectory); }
      return Ok(entries);
    }
    assert RecordedAs(m.kind, entry);
    return Ok(entries[name[|HEADER_ROOT| + 1..] := entry]);
  }

  lemma FineHasPath(m: Member, limits: Limits)
    ensures MemberFine(m, limits) ==> ArchivePath(m.name).Ok?
  {
  }

  /** The loop over members before member `i`, with its counters. */
  ghost predicate ReadSoFar(members: seq<Member>, i: nat, limits: Limits, count: int, total: int, seen: set<string>,
                            selected: Entries)
  {
    && i <= |members| && count == i && total == TotalSize(members, i) && seen == PathsOf(members, i)
    && Selects(members, i, selected) && Readable(members, i, limits)
  }

  lemma NothingRead(members: seq<Member>, limits: Limits)
    ensures ReadSoFar(members, 0, limits, 0, 0, {}, map[])
  {
  }

  /** The tests on one member refuse nothing readable, */
  lemma ReadableMember(members: seq<Member>, i: nat, limits: Limits, count: int, total: int, seen: set<string>, selected: Entries)
    requires i < |members| && ReadSoFar(members, i, limits, count, total, seen, selected)
    requires Readable(members, |members|, limits)
    ensures var path := ArchivePath(members[i].name);
            && path.Ok? && path.value !in seen
            && MemberFine(members[i], limits) && count + 1 <= limits.count && total + members[i].size <= limits.total
  {
    hide ArchivePath, Selects, MemberFine, Readable, PathsOf, TotalSize;
    FineHasPath(members[i], limits);
    ReadableNext(members, i, limits);
    ReadableWhole(members, i, limits);
  }

  /** and what they let pass is readable. */
  lemma ReadOn(members: seq<Member>, i: nat, limits: Limits, count: int, total: int, seen: set<string>, selected: Entries,
               more: Entries)
    requires i < |members| && ReadSoFar(members, i, limits, count, total, seen, selected)
    requires ArchivePath(members[i].name).Ok? && ArchivePath(members[i].name).value !in seen
    requires MemberFine(members[i], limits) && count + 1 <= limits.count && total + members[i].size <= limits.total
    requires Taken(members[i], selected, more)
    ensures var path := ArchivePath(members[i].name).value;
            ReadSoFar(members, i + 1, limits, count + 1, total + members[i].size, seen + {path}, more)
  {
    hide ArchivePath, Selects, MemberFine, Readable, PathsOf, TotalSize, Taken;
    ReadableNext(members, i, limits);
    SelectsTaken(members, i, selected, more);
  }

  /** `read_headers` from the members on: it succeeds exactly on readable members whose header tree is sound, and then
      returns that tree. */
  method ReadHeaders(members: seq<Member>, limits: Limits) returns (r: Result<Entries, Refusal>)
    ensures r.Ok? <==> Readable(members, |members|, limits) && TreeSound(members)
    ensures r.Ok? ==> Selects(members, |members|, r.value)
  {
    hide ArchivePath, Accepted, TreeSound, Selects, MemberFine, Taken, Readable, ReadSoFar;
    var selected: Entries, seen: set<string>, count, total := map[], {}, 0, 0;
    var i := 0;
    NothingRead(members, limits);
    while i < |members|
      invariant 0 <= i <= |members| && ReadSoFar(members, i, limits, count, total, seen, selected)
    {
      if Readable(members, |members|, limits) { ReadableMember(members, i, limits, count, total, seen, selected); }
      var path := ArchivePath(members[i].name);
      if path.Err? { return Err(UnsafeName); }
      if path.value in seen { return Err(DuplicateName); }
      var more := TakeMember(members[i], path.value, limits, count + 1, total + members[i].size, selected);
      if more.Err? { return Err(more.error); }
      ReadOn(members, i, limits, count, total, seen, selected, more.value);
      seen, count, total := seen + {path.value}, count + 1, total + members[i].size;
      selected := more.value;
      i := i + 1;
    }
    AllRead(members, limits, count, total, seen, selected);
    AcceptedIsSound(members, selected);
    var verdict := CheckSelected(selected);
    if verdict.Err? { return Err(verdict.error); }
    return Ok(selected);
  }

  lemma AllRead(members: seq<Member>, limits: Limits, count: int, total: int, seen: set<string>, selected: Entries)
    requires ReadSoFar(members, |members|, limits, count, total, seen, selected)
    ensures Readable(members, |members|, limits) && Selects(members, |members|, selected)
  {
    hide Selects, Readable, PathsOf, TotalSize;
  }
}
