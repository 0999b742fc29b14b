/** `pathlib.PurePosixPath` as the archive scripts use it, and `archive_path` on top of it. */
module PosixPath {
  import opened Prelude

  datatype Fault = UnsafePath

  /** `s.split('/')`. */
  function Split(s: string): (parts: seq<string>)
    ensures parts != []
  {
    if s == "" then [""]
    else
      var rest := Split(s[1..]);
      if s[0] == '/' then [""] + rest else [[s[0]] + rest[0]] + rest[1..]
  }

  /** `'/'.join(parts)`. */
  function Join(parts: seq<string>): string {
    if parts == [] then ""
    else if |parts| == 1 then parts[0]
    else parts[0] + "/" + Join(parts[1..])
  }

  function Meaningful(parts: seq<string>): seq<string> {
    if parts == [] then []
    else if parts[0] == "" || parts[0] == "." then Meaningful(parts[1..])
    else [parts[0]] + Meaningful(parts[1..])
  }

  predicate IsAbsolute(s: string) {
    s != "" && s[0] == '/'
  }

  /** `PurePosixPath(s).parts` of a relative path: empty and `.` components are dropped. */
  function Parts(s: string): seq<string> {
    Meaningful(Split(s))
  }

  /** `str(PurePosixPath(s))` of a relative path. */
  function PathText(s: string): string {
    if Parts(s) == [] then "." else Join(Parts(s))
  }

  /** `archive_path`. */
  function ArchivePath(name: string): Result<string, Fault> {
    if IsAbsolute(name) || ".." in Parts(name) || '\0' in name || '\\' in name || PathText(name) == "." then Err(UnsafePath)
    else Ok(PathText(name))
  }

  /** A name that `archive_path` gives back unchanged. */
  predicate Canonical(name: string) {
    ArchivePath(name) == Ok(name)
  }

  /** A component that stands for itself. */
  predicate Plain(c: string) {
    c != "" && c != "." && c != ".." && '/' !in c && '\0' !in c && '\\' !in c
  }

  predicate AllPlain(parts: seq<string>) {
    forall i :: 0 <= i < |parts| ==> Plain(parts[i])
  }

  // ---------------------------------------------------------------------------------------------

  lemma {:induction false} SplitNone(s: string)
    requires '/' !in s
    ensures Split(s) == [s]
  {
    if s != "" {
      assert '/' !in s[1..];
      SplitNone(s[1..]);
      assert [s[0]] + s[1..] == s;
    }
  }

  lemma {:induction false} SplitAfter(a: string, b: string)
    requires '/' !in a
    ensures Split(a + "/" + b) == [a] + Split(b)
  {
    var s := a + "/" + b;
    if a == "" {
      assert s[1..] == b;
    } else {
      assert '/' !in a[1..];
      SplitAfter(a[1..], b);
      assert s[1..] == a[1..] + "/" + b;
      assert [s[0]] + a[1..] == a;
    }
  }

  lemma {:induction false} JoinSnoc(parts: seq<string>, last: string)
    requires parts != []
    ensures Join(parts + [last]) == Join(parts) + "/" + last
  {
    var all := parts + [last];
    assert all[1..] == parts[1..] + [last];
    if |parts| > 1 { JoinSnoc(parts[1..], last); }
  }

  /** Splitting undoes joining. */
  lemma {:induction false} SplitJoin(parts: seq<string>)
    requires parts != [] && forall i :: 0 <= i < |parts| ==> '/' !in parts[i]
    ensures Split(Join(parts)) == parts
  {
    if |parts| == 1 {
      SplitNone(parts[0]);
    } else {
      SplitJoin(parts[1..]);
      SplitAfter(parts[0], Join(parts[1..]));
    }
  }

  lemma {:induction false} JoinSplit(s: string)
    ensures Join(Split(s)) == s
    ensures forall i :: 0 <= i < |Split(s)| ==> '/' !in Split(s)[i]
    ensures forall i, c :: 0 <= i < |Split(s)| && c in Split(s)[i] ==> c in s
  {
    if s != "" {
      JoinSplit(s[1..]);
      var rest := Split(s[1..]);
      if s[0] == '/' {
        assert ([""] + rest)[1..] == rest;
        assert s == "/" + s[1..];
      } else {
        JoinHead(s[0], rest);
        assert s == [s[0]] + s[1..];
      }
    }
  }

  lemma JoinHead(c: char, rest: seq<string>)
    requires rest != []
    ensures Join([[c] + rest[0]] + rest[1..]) == [c] + Join(rest)
  {
    var all := [[c] + rest[0]] + rest[1..];
    assert all[1..] == rest[1..] && all[0] == [c] + rest[0];
    if |rest| > 1 { HeadInFront(c, rest[0], "/" + Join(rest[1..])); }
  }

  lemma HeadInFront(c: char, first: string, tail: string)
    ensures ([c] + first) + tail == [c] + (first + tail)
  {
  }

  lemma {:induction false} MeaningfulMembers(parts: seq<string>)
    ensures forall p :: p in Meaningful(parts) <==> p in parts && p != "" && p != "."
  {
    if parts != [] { MeaningfulMembers(parts[1..]); }
  }

  lemma {:induction false} MeaningfulPlain(parts: seq<string>)
    requires AllPlain(parts)
    ensures Meaningful(parts) == parts
  {
    if parts != [] {
      MeaningfulPlain(parts[1..]);
      assert [parts[0]] + parts[1..] == parts;
    }
  }

  lemma {:induction false} JoinedChars(parts: seq<string>, c: char)
    requires c != '/' && forall i :: 0 <= i < |parts| ==> c !in parts[i]
    ensures c !in Join(parts)
  {
    if |parts| > 1 { JoinedChars(parts[1..], c); }
  }

  /** Joined plain components are a canonical name, and their parts are read back. */
  lemma JoinedIsCanonical(parts: seq<string>)
    requires parts != [] && AllPlain(parts)
    ensures Parts(Join(parts)) == parts && Canonical(Join(parts))
  {
    SplitJoin(parts);
    MeaningfulPlain(parts);
    JoinedChars(parts, '\0');
    JoinedChars(parts, '\\');
    assert parts[0] != "" && Join(parts)[0] == parts[0][0] && parts[0][0] in parts[0];
    assert Plain(parts[0]);
    SplitNone(".");
    assert parts != ["."];
    MeaningfulMembers(parts);
  }

  /** And every canonical name is of that form. */
  lemma CanonicalIsJoined(name: string)
    requires Canonical(name)
    ensures Parts(name) != [] && AllPlain(Parts(name)) && Join(Parts(name)) == name
  {
    JoinSplit(name);
    MeaningfulMembers(Split(name));
    forall i | 0 <= i < |Parts(name)| ensures Plain(Parts(name)[i]) {
      var p := Parts(name)[i];
      assert p in Split(name);
    }
  }

  /** Distinct component lists give distinct names. */
  lemma JoinInjective(a: seq<string>, b: seq<string>)
    requires a != [] && b != [] && AllPlain(a) && AllPlain(b) && Join(a) == Join(b)
    ensures a == b
  {
    SplitJoin(a);
    SplitJoin(b);
  }

  /** What `archive_path` returns is canonical. */
  lemma ArchivePathCanonical(name: string)
    requires ArchivePath(name).Ok?
    ensures Canonical(ArchivePath(name).value)
  {
    JoinSplit(name);
    MeaningfulMembers(Split(name));
    forall i | 0 <= i < |Parts(name)| ensures Plain(Parts(name)[i]) {
      assert Parts(name)[i] in Split(name);
    }
    JoinedIsCanonical(Parts(name));
  }
}
