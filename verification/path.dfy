/** The path decomposer (app/main.go `httpPathWrapper`): the request target
    split on "/", with the piece before the leading "/" dropped. */
module HttpPath {
  import opened GoStrings

  const Slash: string := "/"

  /** `Nil` is the nil pointer the constructor returns for an empty path. */
  datatype PathWrapper = Nil | Wrapper(path: string, contents: seq<string>)

  function NewPathWrapper(path: string): PathWrapper
  {
    if |path| == 0 then Nil else Wrapper(path, Split(path, Slash)[1..])
  }

  /** The route key: the first segment, or "". */
  function Main(pw: PathWrapper): string
  {
    if pw.Nil? || |pw.contents| < 1 then "" else pw.contents[0]
  }

  /** The argument: the segments after the first, joined by "/", or "". */
  function Secondary(pw: PathWrapper): string
  {
    if pw.Nil? || |pw.contents| < 2 then "" else Join(pw.contents[1..], Slash)
  }

  function Primary(path: string): string
  {
    Main(NewPathWrapper(path))
  }

  function Argument(path: string): string
  {
    Secondary(NewPathWrapper(path))
  }

  // ---------------------------------------------------------------------
  // Lemmas
  // ---------------------------------------------------------------------

  /** The empty target has neither a route key nor an argument. */
  lemma EmptyPath()
    ensures Primary("") == "" && Argument("") == ""
  {
  }

  /** A target `/seg/arg` decomposes into `seg` and `arg`, whatever `arg`
      holds, as long as `seg` has no "/". */
  lemma DecomposeCompose(seg: string, arg: string)
    requires NoChar(seg, '/')
    ensures Primary("/" + seg + "/" + arg) == seg
    ensures Argument("/" + seg + "/" + arg) == arg
  {
    var path := "/" + seg + "/" + arg;
    NoCharNoContains(seg, Slash);
    assert path == "" + Slash + (seg + Slash + arg);
    SplitAfter("", Slash, seg + Slash + arg);
    SplitAfter(seg, Slash, arg);
    var contents := Split(path, Slash)[1..];
    assert contents == [seg] + Split(arg, Slash);
    assert contents[1..] == Split(arg, Slash);
    JoinSplit(arg, Slash);
  }

  /** A target `/seg` with one segment has route key `seg` and no argument. */
  lemma SingleSegment(seg: string)
    requires NoChar(seg, '/')
    ensures Primary("/" + seg) == seg
    ensures Argument("/" + seg) == ""
  {
    NoCharNoContains(seg, Slash);
    assert "/" + seg == "" + Slash + seg;
    SplitAfter("", Slash, seg);
    SplitNone(seg, Slash);
  }

  /** A target `/s0/s1/.../sn` with n >= 1 is rebuilt from its parts: the
      route key holds no "/" and "/" + key + "/" + argument is the target. */
  lemma ComposeDecompose(path: string)
    requires |path| > 0 && path[0] == '/'
    requires Contains(path[1..], Slash)
    ensures NoChar(Primary(path), '/')
    ensures "/" + Primary(path) + "/" + Argument(path) == path
  {
    var rest := path[1..];
    var contents := Split(rest, Slash);
    SplitHead(rest, Slash);
    AfterLeadingSlash(path);
    Recompose(Primary(path), Argument(path), rest, contents);
    assert path == "/" + rest;
  }

  /** The first piece and the others joined, put back together. */
  lemma Recompose(key: string, arg: string, rest: string, contents: seq<string>)
    requires contents == Split(rest, Slash) && |contents| >= 2
    requires key == contents[0] && arg == Join(contents[1..], Slash)
    ensures NoChar(key, '/')
    ensures "/" + key + "/" + arg == "/" + rest
  {
    SplitHead(rest, Slash);
    ContainsChar(key, '/');
    Rebuild(rest, contents);
    Regroup("/", key, "/", arg, "");
  }

  /** The pieces of a target after its leading "/" are those of the rest. */
  lemma AfterLeadingSlash(path: string)
    requires |path| > 0 && path[0] == '/'
    ensures var contents := Split(path[1..], Slash);
      && Primary(path) == contents[0]
      && Argument(path) == if |contents| < 2 then "" else Join(contents[1..], Slash)
  {
    var rest := path[1..];
    assert path == "" + Slash + rest;
    SplitAfter("", Slash, rest);
    assert NewPathWrapper(path) == Wrapper(path, Split(rest, Slash));
  }

  /** Joining the first piece and the rest again gives the text. */
  lemma Rebuild(rest: string, contents: seq<string>)
    requires contents == Split(rest, Slash) && |contents| >= 2
    ensures contents[0] + "/" + Join(contents[1..], Slash) == rest
  {
    JoinSplit(rest, Slash);
    JoinCons(contents[0], contents[1..], Slash);
    assert contents == [contents[0]] + contents[1..];
  }
}
