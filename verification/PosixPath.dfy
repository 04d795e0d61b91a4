/** The relative-path handling of `PurePosixPath` that links and archives rely on. */
module PosixPath {
  import Lists
  import Text

  predicate NamedPart(p: string) { p != "" && p != "." }

  /** `PurePosixPath(path).parts` of a relative path: empty and `.` components disappear. */
  function PathParts(path: string): seq<string> { Lists.Filter(Text.Split(path, '/'), (p: string) => NamedPart(p)) }

  /** `PurePosixPath(path).as_posix()`. */
  function Normalize(path: string): string {
    if PathParts(path) == [] then "." else Text.Join("/", PathParts(path))
  }

  lemma PartsOfCanonical(path: string)
    requires forall i :: 0 <= i < |Text.Split(path, '/')| ==> NamedPart(Text.Split(path, '/')[i])
    ensures PathParts(path) == Text.Split(path, '/') && Normalize(path) == path
  {
    Lists.FilterAll(Text.Split(path, '/'), (p: string) => NamedPart(p));
    Text.JoinSplit(path, '/');
  }

  lemma CanonicalParts(path: string)
    requires Normalize(path) == path && PathParts(path) != []
    ensures Text.Split(path, '/') == PathParts(path)
  {
    var parts := PathParts(path);
    Text.JoinSplit(path, '/');
    forall i | 0 <= i < |parts| ensures '/' !in parts[i] {
      assert parts[i] in parts;
      assert parts[i] in Text.Split(path, '/');
    }
    Text.SplitJoin(parts, '/');
  }

  lemma OneDot()
    ensures Text.Split(".", '/') == ["."] && PathParts(".") == [] && Normalize(".") == "."
  {
    Text.SplitFirst(".", '/', "");
  }

  /** No component is empty, `.` or `..`. */
  predicate Contained(parts: seq<string>) {
    forall i :: 0 <= i < |parts| ==> NamedPart(parts[i]) && parts[i] != ".."
  }

  lemma AcceptedIsContained(path: string)
    requires ".." !in PathParts(path) && Normalize(path) == path
    ensures path == "." || Contained(Text.Split(path, '/'))
  {
    if PathParts(path) != [] {
      CanonicalParts(path);
      var parts := Text.Split(path, '/');
      forall i | 0 <= i < |parts| ensures NamedPart(parts[i]) && parts[i] != ".." {
        assert parts[i] in PathParts(path);
      }
    }
  }

  lemma ContainedIsAccepted(path: string)
    requires path != "" && Contained(Text.Split(path, '/'))
    ensures path[0] != '/' && ".." !in PathParts(path) && Normalize(path) == path
  {
    PartsOfCanonical(path);
    FirstCharOfPath(path);
  }

  lemma FirstCharOfPath(path: string)
    requires path != "" && Text.Split(path, '/')[0] != ""
    ensures path[0] != '/'
  {
  }
}
