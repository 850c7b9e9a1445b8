/** Parsing a list of files in contiguous chunks, one worker each, joined in order. */
module ThreadedParse {
  import opened Common

  /** Reading and parsing one file, by name; both pipelines report a failure by that name. */
  type Parser<T> = string -> Option<T>

  datatype Parsed<T> = Files(files: seq<T>) | Unparsed(name: string)

  /** Parsing names one after another, up to the first that fails. */
  function ParseAll<T>(parse: Parser<T>, names: seq<string>): Parsed<T> {
    if names == [] then Files([])
    else
      match parse(names[0])
      case None => Unparsed(names[0])
      case Some(file) =>
        match ParseAll(parse, names[1..])
        case Unparsed(name) => Unparsed(name)
        case Files(rest) => Files([file] + rest)
  }

  function Then<T>(a: Parsed<T>, b: Parsed<T>): Parsed<T> {
    match a
    case Unparsed(_) => a
    case Files(files) =>
      match b
      case Unparsed(_) => b
      case Files(more) => Files(files + more)
  }

  lemma {:induction false} ParseAppend<T>(parse: Parser<T>, a: seq<string>, b: seq<string>)
    ensures ParseAll(parse, a + b) == Then(ParseAll(parse, a), ParseAll(parse, b))
  {
    if a == [] {
      assert [] + b == b;
      var parsed := ParseAll(parse, b);
      assert parsed.Files? ==> [] + parsed.files == parsed.files;
    } else {
      ParseAppend(parse, a[1..], b);
      assert (a + b)[1..] == a[1..] + b;
      var x, y := ParseAll(parse, a[1..]), ParseAll(parse, b);
      if parse(a[0]).Some? && x.Files? && y.Files? {
        Regroup([parse(a[0]).value], x.files, y.files);
      }
    }
  }

  lemma ParseOne<T>(parse: Parser<T>, name: string)
    ensures ParseAll(parse, [name]) == if parse(name).Some? then Files([parse(name).value]) else Unparsed(name)
  {
    Single([name]);
  }

  lemma {:induction false} ParseLength<T>(parse: Parser<T>, names: seq<string>)
    ensures ParseAll(parse, names).Files? ==> |ParseAll(parse, names).files| == |names|
  {
    if names != [] {
      ParseLength(parse, names[1..]);
    }
  }

  /** One worker: its chunk in order, stopping at the first failure. */
  method ParseChunk<T>(parse: Parser<T>, names: seq<string>) returns (r: Parsed<T>)
    ensures r == ParseAll(parse, names)
  {
    var files: seq<T> := [];
    assert names[..0] == [];
    for i := 0 to |names|
      invariant ParseAll(parse, names[..i]) == Files(files)
    {
      SplitAt(names, i);
      ParseAppend(parse, names[..i], [names[i]]);
      ParseOne(parse, names[i]);
      var parsed := parse(names[i]);
      if parsed.None? {
        ParseAppend(parse, names[..i + 1], names[i + 1..]);
        return Unparsed(names[i]);
      }
      files := files + [parsed.value];
    }
    assert names[..|names|] == names;
    return Files(files);
  }

  lemma AtLeastOnce(a: nat, d: nat)
    requires a >= d >= 1
    ensures a / d >= 1
  {
  }

  /** Chunking changes nothing: the result, a failure included, is that of one sequential parse. */
  method ParseThreaded<T>(parse: Parser<T>, names: seq<string>, threads: nat) returns (r: Parsed<T>)
    requires threads >= 1
    ensures r == ParseAll(parse, names)
  {
    if names == [] {
      return Files([]);
    }
    var chunk := (|names| + threads - 1) / threads;  // div_ceil
    AtLeastOnce(|names| + threads - 1, threads);
    var joined: Parsed<T> := Files([]);
    var start := 0;
    assert names[..0] == [];
    while start < |names|
      invariant 0 <= start <= |names|
      invariant joined == ParseAll(parse, names[..start])
    {
      var end := if start + chunk < |names| then start + chunk else |names|;
      var part := ParseChunk(parse, names[start..end]);
      ParseAppend(parse, names[..start], names[start..end]);
      assert names[..end] == names[..start] + names[start..end];
      joined := match joined
                case Unparsed(_) => joined
                case Files(files) => (match part case Unparsed(_) => part case Files(more) => Files(files + more));
      start := end;
    }
    assert names[..|names|] == names;
    return joined;
  }

  /** What parsing a list answers: every file in order, or the name of the first that fails. */
  lemma {:induction false} ParseMeans<T>(parse: Parser<T>, names: seq<string>)
    ensures match ParseAll(parse, names)
            case Files(files) => |files| == |names| && forall i :: 0 <= i < |names| ==> parse(names[i]) == Some(files[i])
            case Unparsed(name) =>
              exists i :: 0 <= i < |names| && name == names[i] && parse(names[i]).None?
                && forall j :: 0 <= j < i ==> parse(names[j]).Some?
  {
    if names != [] && parse(names[0]).Some? {
      ParseMeans(parse, names[1..]);
      match ParseAll(parse, names[1..]) {
        case Files(rest) =>
          var files := [parse(names[0]).value] + rest;
          forall i | 0 <= i < |names| ensures parse(names[i]) == Some(files[i]) {
            if i > 0 { assert names[i] == names[1..][i - 1] && files[i] == rest[i - 1]; }
          }
        case Unparsed(name) =>
          var i :| 0 <= i < |names| - 1 && name == names[1..][i] && parse(names[1..][i]).None?
            && forall j :: 0 <= j < i ==> parse(names[1..][j]).Some?;
          forall j | 0 <= j < i + 1 ensures parse(names[j]).Some? {
            if j > 0 { assert names[j] == names[1..][j - 1]; }
          }
          assert names[i + 1] == names[1..][i];
      }
    }
  }
}
