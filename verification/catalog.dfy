/**
 * The installed-package catalog parser of `list_packages` and
 * `split_name_version` (src/main.rs). Each line of `pkg info` output is a
 * `name-version` token, a run of spaces and a free-text description.
 */
module Catalog {
  import opened Wrappers
  import opened Packages
  import opened Text

  /** Why parsing stops: `list_packages` unwraps `split_name_version` and panics. */
  datatype CatalogError = NoHyphenInToken(token: string)

  /** How a line divides: skipped, or the first space and the first non-space after it. */
  datatype LineShape = Skipped | Fields(spaceStart: nat, spaceEnd: nat)

  /**
   * Split a `name-version` token at its last hyphen; `None` when it has no
   * hyphen. The name keeps any earlier hyphens.
   */
  function SplitNameVersion(combined: string): (r: Option<(string, string)>)
    ensures r.None? <==> '-' !in combined
    ensures r.Some? ==> r.value.0 + "-" + r.value.1 == combined
    ensures r.Some? ==> '-' !in r.value.1
  {
    match LastIndexOf(combined, '-')
    case None => None
    case Some(lastDash) =>
      assert combined == combined[..lastDash] + "-" + combined[lastDash + 1..];
      Some((combined[..lastDash], combined[lastDash + 1..]))
  }

  /**
   * Any way of writing a token as name, hyphen, hyphen-free version is the
   * split the parser picks: the split is at the last hyphen.
   */
  lemma SplitNameVersionUnique(name: string, version: string)
    requires '-' !in version
    ensures SplitNameVersion(name + "-" + version) == Some((name, version))
  {
    var combined := name + "-" + version;
    var k := LastIndexOf(combined, '-').value;
    assert combined[|name|] == '-';
    assert combined[|name| + 1..] == version;
    assert combined[..k] == name;
    assert combined[k + 1..] == version;
  }

  /** The split a line is meant to have: the first space, then the first non-space after it. */
  function ClassifyLine(line: string): (r: LineShape)
    ensures r.Fields? ==> 0 < r.spaceStart < r.spaceEnd < |line|
    ensures r.Fields? ==> forall j :: 0 <= j < r.spaceStart ==> line[j] != ' '
    ensures r.Fields? ==> forall j :: r.spaceStart <= j < r.spaceEnd ==> line[j] == ' '
    ensures r.Fields? ==> line[r.spaceEnd] != ' '
  {
    match FindFrom(line, ' ', 0)
    case None => Skipped
    case Some(s) =>
      if s == 0 then Skipped
      else
        match FindOtherFrom(line, ' ', s + 1)
        case None => Skipped
        case Some(e) => Fields(s, e)
  }

  /**
   * A line is kept exactly when it does not start with a space and some
   * non-space character comes after some space; otherwise it has no space,
   * starts with one, or has only spaces after its first space.
   */
  lemma ClassifyLineKeeps(line: string)
    ensures ClassifyLine(line).Fields? <==>
      |line| > 0 && line[0] != ' ' &&
      exists i, j :: 0 <= i < j < |line| && line[i] == ' ' && line[j] != ' '
  {
    var r := ClassifyLine(line);
    if r.Fields? {
      assert line[r.spaceStart] == ' ';
    }
    if |line| > 0 && line[0] != ' ' && exists i, j :: 0 <= i < j < |line| && line[i] == ' ' && line[j] != ' ' {
      var i, j :| 0 <= i < j < |line| && line[i] == ' ' && line[j] != ' ';
      var s := FindFrom(line, ' ', 0).value;
      assert s <= i;
      assert FindOtherFrom(line, ' ', s + 1).Some? by {
        assert s + 1 <= j;
      }
    }
  }

  /**
   * The converse of the split: a line written as a space-free token, a run
   * of spaces and a description starting with a non-space is split exactly
   * there.
   */
  lemma ClassifyLineUnique(token: string, gap: string, description: string)
    requires |token| > 0 && ' ' !in token
    requires |gap| > 0 && forall j :: 0 <= j < |gap| ==> gap[j] == ' '
    requires |description| > 0 && description[0] != ' '
    ensures ClassifyLine(token + gap + description) == Fields(|token|, |token| + |gap|)
  {
    var line := token + gap + description;
    assert line[|token|] == ' ';
    assert line[..|token|] == token;
    assert line[|token| + |gap|] == description[0];
    assert forall j :: |token| <= j < |token| + |gap| ==> line[j] == gap[j - |token|];
  }

  /** The name-version token of a kept line. */
  function Token(line: string): string
    requires ClassifyLine(line).Fields?
  {
    line[..ClassifyLine(line).spaceStart]
  }

  /** A kept line whose token has no hyphen: `list_packages` panics on it. */
  predicate Panics(line: string)
  {
    ClassifyLine(line).Fields? && '-' !in Token(line)
  }

  /** The package a kept line is meant to yield: its token, split at the last hyphen, and the rest. */
  predicate Describes(p: Package, line: string)
  {
    ClassifyLine(line).Fields? &&
    p.name + "-" + p.version == Token(line) && '-' !in p.version &&
    p.description == line[ClassifyLine(line).spaceEnd..] &&
    p.dependencies == []
  }

  /** What one line contributes: nothing, one package, or the panic. */
  function ParseLine(line: string): (r: Result<Option<Package>, CatalogError>)
    ensures r.Failure? <==> Panics(line)
    ensures r.Failure? ==> r.error == NoHyphenInToken(Token(line))
    ensures r == Success(None) <==> ClassifyLine(line).Skipped?
    ensures r.Success? && r.value.Some? ==> Describes(r.value.value, line)
  {
    match ClassifyLine(line)
    case Skipped => Success(None)
    case Fields(s, e) =>
      match SplitNameVersion(line[..s])
      case None => Failure(NoHyphenInToken(line[..s]))
      case Some((name, version)) => Success(Some(Package(name, version, line[e..], [])))
  }

  /**
   * A kept line is put back together from the package it yields (see
   * `ParseLine`) and the run of spaces it dropped: name, hyphen, version,
   * spaces, description.
   */
  lemma LineReconstructs(line: string, p: Package)
    requires Describes(p, line)
    ensures var gap := line[ClassifyLine(line).spaceStart..ClassifyLine(line).spaceEnd];
      |gap| > 0 && (forall j :: 0 <= j < |gap| ==> gap[j] == ' ') &&
      p.name + "-" + p.version + gap + p.description == line
  {
    var s, e := ClassifyLine(line).spaceStart, ClassifyLine(line).spaceEnd;
    var gap := line[s..e];
    assert forall j :: 0 <= j < |gap| ==> gap[j] == line[s + j];
    ConcatSlices(line, s, e);
    assert p.name + "-" + p.version + gap + p.description == line[..s] + gap + line[e..];
  }

  /** Cutting a text twice and gluing the three pieces gives it back. */
  lemma ConcatSlices(line: string, s: nat, e: nat)
    requires s <= e <= |line|
    ensures line[..s] + line[s..e] + line[e..] == line
  {
  }

  /** The line `pkg info` prints for a package: token, a run of spaces, description. */
  function FormatLine(p: Package, gap: string): string
  {
    p.name + "-" + p.version + gap + p.description
  }

  /**
   * Parsing a printed line gives the package back, provided the name and
   * version have no space, the version no hyphen, the gap only spaces and
   * the description does not start with a space.
   */
  lemma ParseFormatLine(p: Package, gap: string)
    requires ' ' !in p.name && ' ' !in p.version && '-' !in p.version
    requires |gap| > 0 && forall j :: 0 <= j < |gap| ==> gap[j] == ' '
    requires |p.description| > 0 && p.description[0] != ' '
    requires p.dependencies == []
    ensures ParseLine(FormatLine(p, gap)) == Success(Some(p))
  {
    var token := p.name + "-" + p.version;
    assert forall j :: 0 <= j < |token| ==> token[j] != ' ' by {
      forall j | 0 <= j < |token| ensures token[j] != ' ' {
        if j < |p.name| { assert token[j] == p.name[j]; }
        else if j > |p.name| { assert token[j] == p.version[j - |p.name| - 1]; }
      }
    }
    ClassifyLineUnique(token, gap, p.description);
    assert FormatLine(p, gap) == token + gap + p.description;
    assert (token + gap + p.description)[..|token|] == token;
    SplitNameVersionUnique(p.name, p.version);
  }

  /** The whole catalog: one package per kept line, in line order, or the first panic. */
  function ParseCatalog(lines: seq<string>): (r: Result<seq<Package>, CatalogError>)
    ensures r.Success? ==> |r.value| <= |lines|
    ensures r.Success? ==> forall k :: 0 <= k < |r.value| ==> r.value[k].dependencies == []
  {
    if |lines| == 0 then Success([])
    else
      match ParseCatalog(lines[..|lines| - 1])
      case Failure(e) => Failure(e)
      case Success(ps) =>
        match ParseLine(lines[|lines| - 1])
        case Failure(e) => Failure(e)
        case Success(None) => Success(ps)
        case Success(Some(p)) => Success(ps + [p])
  }

  /** The lines the parser keeps, in their original order. */
  function KeptLines(lines: seq<string>): seq<string>
  {
    if |lines| == 0 then []
    else
      KeptLines(lines[..|lines| - 1]) +
      (if ClassifyLine(lines[|lines| - 1]).Fields? then [lines[|lines| - 1]] else [])
  }

  /**
   * On success the catalog holds exactly one package per kept line, in line
   * order, each described by its line and with no dependencies yet.
   */
  lemma {:induction false} ParseCatalogPackages(lines: seq<string>)
    requires ParseCatalog(lines).Success?
    ensures var ps := ParseCatalog(lines).value;
      |ps| == |KeptLines(lines)| &&
      forall k :: 0 <= k < |ps| ==> Describes(ps[k], KeptLines(lines)[k])
  {
    if |lines| > 0 {
      var init, last := lines[..|lines| - 1], lines[|lines| - 1];
      ParseCatalogPackages(init);
      var ps, kept := ParseCatalog(init).value, KeptLines(init);
      assert KeptLines(lines) == kept + (if ClassifyLine(last).Fields? then [last] else []);
      match ParseLine(last)
      case Success(None) =>
        assert ParseCatalog(lines).value == ps;
      case Success(Some(p)) =>
        assert ParseCatalog(lines).value == ps + [p];
        assert KeptLines(lines) == kept + [last];
        assert Describes(p, last);
    }
  }

  /** Parsing succeeds exactly when no line makes `list_packages` panic. */
  lemma {:induction false} ParseCatalogSucceeds(lines: seq<string>)
    ensures ParseCatalog(lines).Success? <==> forall k :: 0 <= k < |lines| ==> !Panics(lines[k])
  {
    if |lines| > 0 {
      var init := lines[..|lines| - 1];
      var last := lines[|lines| - 1];
      ParseCatalogSucceeds(init);
      if ParseCatalog(init).Failure? {
        var k :| 0 <= k < |init| && Panics(init[k]);
        assert lines[k] == init[k];
      } else if ParseLine(last).Failure? {
        assert Panics(last);
      } else {
        forall k | 0 <= k < |lines| ensures !Panics(lines[k]) {
          if k < |init| {
            assert lines[k] == init[k];
          }
        }
      }
    }
  }

  /** A failure reports the token of the first line that panics. */
  lemma {:induction false} ParseCatalogFailure(lines: seq<string>)
    requires ParseCatalog(lines).Failure?
    ensures exists k :: (0 <= k < |lines| && Panics(lines[k]) &&
      ParseCatalog(lines).error == NoHyphenInToken(Token(lines[k])) &&
      forall j :: 0 <= j < k ==> !Panics(lines[j]))
  {
    var init := lines[..|lines| - 1];
    assert forall k :: 0 <= k < |init| ==> init[k] == lines[k];
    if ParseCatalog(init).Failure? {
      ParseCatalogFailure(init);
      var k :| 0 <= k < |init| && Panics(init[k]) &&
        ParseCatalog(init).error == NoHyphenInToken(Token(init[k])) &&
        forall j :: 0 <= j < k ==> !Panics(init[j]);
      assert Panics(lines[k]);
    } else {
      ParseCatalogSucceeds(init);
      assert Panics(lines[|lines| - 1]);
    }
  }

  /**
   * Lines are handled one after another: parsing two blocks of lines is
   * parsing the first, then the second, and concatenating the packages.
   */
  lemma {:induction false} ParseCatalogAppend(a: seq<string>, b: seq<string>)
    ensures ParseCatalog(a + b) ==
      match ParseCatalog(a)
      case Failure(e) => Failure(e)
      case Success(pa) =>
        match ParseCatalog(b)
        case Failure(e) => Failure(e)
        case Success(pb) => Success(pa + pb)
  {
    if |b| == 0 {
      assert a + b == a;
      if ParseCatalog(a).Success? {
        assert ParseCatalog(a).value + [] == ParseCatalog(a).value;
      }
    } else {
      var init := b[..|b| - 1];
      ParseCatalogAppend(a, init);
      assert (a + b)[..|a + b| - 1] == a + init;
      assert (a + b)[|a + b| - 1] == b[|b| - 1];
      if ParseCatalog(a).Success? && ParseCatalog(init).Success? {
        var pa, pi := ParseCatalog(a).value, ParseCatalog(init).value;
        match ParseLine(b[|b| - 1])
        case Success(Some(p)) => assert pa + pi + [p] == pa + (pi + [p]);
        case _ =>
      }
    }
  }

  /**
   * The character loop of `list_packages`: the index of the first space and
   * the index of the first non-space after it, when they exist.
   */
  method ScanLine(line: string) returns (spaceStart: Option<nat>, spaceEnd: Option<nat>)
    ensures spaceStart == FindFrom(line, ' ', 0)
    ensures spaceEnd == if spaceStart.None? then None else FindOtherFrom(line, ' ', spaceStart.value + 1)
  {
    spaceStart, spaceEnd := None, None;
    var i := 0;
    while i < |line|
      invariant i <= |line|
      invariant spaceEnd.None?
      invariant spaceStart.None? ==> forall j :: 0 <= j < i ==> line[j] != ' '
      invariant spaceStart.Some? ==> spaceStart == FindFrom(line, ' ', 0) && spaceStart.value < i
      invariant spaceStart.Some? ==> forall j :: spaceStart.value < j < i ==> line[j] == ' '
    {
      var c := line[i];
      if spaceStart.None? {
        if c == ' ' {
          spaceStart := Some(i);
        }
      } else if c != ' ' {
        spaceEnd := Some(i);
        break;
      }
      i := i + 1;
    }
  }

  /** One more line: the catalog so far, extended by what that line contributes. */
  lemma ParseCatalogStep(lines: seq<string>, k: nat)
    requires k < |lines|
    ensures ParseCatalog(lines[..k + 1]) ==
      match ParseCatalog(lines[..k])
      case Failure(e) => Failure(e)
      case Success(ps) =>
        match ParseLine(lines[k])
        case Failure(e) => Failure(e)
        case Success(None) => Success(ps)
        case Success(Some(p)) => Success(ps + [p])
  {
    assert lines[..k + 1][..k] == lines[..k];
    assert lines[..k + 1][k] == lines[k];
  }

  /** A panic on one line is the outcome of the whole catalog. */
  lemma ParseCatalogStops(lines: seq<string>, k: nat)
    requires k <= |lines| && ParseCatalog(lines[..k]).Failure?
    ensures ParseCatalog(lines) == ParseCatalog(lines[..k])
  {
    ParseCatalogAppend(lines[..k], lines[k..]);
    assert lines[..k] + lines[k..] == lines;
  }

  /**
   * `list_packages` on the text `pkg info` printed: split it into lines,
   * scan each, skip those without a token/description boundary, and push one
   * package per remaining line; the first hyphen-free token panics.
   */
  method ListPackages(stdout: string) returns (r: Result<seq<Package>, CatalogError>)
    ensures r == ParseCatalog(Split(stdout, '\n'))
  {
    var lines := Split(stdout, '\n');
    var packages: seq<Package> := [];
    var k := 0;
    while k < |lines|
      invariant k <= |lines|
      invariant ParseCatalog(lines[..k]) == Success(packages)
    {
      var line := lines[k];
      ParseCatalogStep(lines, k);
      var spaceStart, spaceEnd := ScanLine(line);
      if spaceStart.None? || spaceStart.value == 0 || spaceEnd.None? {
        assert ClassifyLine(line).Skipped?;
        k := k + 1;
        continue;
      }
      assert ClassifyLine(line) == Fields(spaceStart.value, spaceEnd.value);
      assert spaceEnd.value > spaceStart.value;
      var token := line[..spaceStart.value];
      var split := SplitNameVersion(token);
      if split.None? {
        ParseCatalogStops(lines, k + 1);
        return Failure(NoHyphenInToken(token));
      }
      var (name, version) := split.value;
      packages := packages + [Package(name, version, line[spaceEnd.value..], [])];
      k := k + 1;
    }
    assert lines[..k] == lines;
    r := Success(packages);
  }
}
