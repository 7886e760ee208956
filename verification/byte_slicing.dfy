/**
 * The catalog parser as written: the scan counts characters (`line.chars()`)
 * but the two slices that follow index the line by bytes. The two agree
 * whenever the token before the first space is ASCII; this module states how
 * the text is really cut and shows a line on which the two disagree.
 */
module ByteSlicing {
  import opened Wrappers
  import opened Packages
  import opened Catalog

  /** Bytes in the UTF-8 encoding of `c` (Rust's `char::len_utf8`). */
  function Utf8Width(c: char): (w: nat)
    ensures 1 <= w <= 4
    ensures w == 1 <==> (c as int) < 0x80
  {
    if (c as int) < 0x80 then 1
    else if (c as int) < 0x800 then 2
    else if (c as int) < 0x1_0000 then 3
    else 4
  }

  /** Bytes in the UTF-8 encoding of `s`. */
  function ByteLen(s: string): nat
  {
    if |s| == 0 then 0 else ByteLen(s[..|s| - 1]) + Utf8Width(s[|s| - 1])
  }

  /** Text made only of ASCII characters. */
  predicate IsAscii(s: string)
  {
    forall j :: 0 <= j < |s| ==> (s[j] as int) < 0x80
  }

  /** Byte offsets grow strictly with the character index. */
  lemma {:induction false} ByteLenGrows(s: string, i: nat, j: nat)
    requires i < j <= |s|
    ensures ByteLen(s[..i]) + Utf8Width(s[i]) <= ByteLen(s[..j])
  {
    assert s[..j][..j - 1] == s[..j - 1];
    if i < j - 1 {
      ByteLenGrows(s, i, j - 1);
    } else {
      assert s[..j][j - 1] == s[i];
    }
  }

  /** On ASCII text bytes and characters coincide. */
  lemma {:induction false} AsciiByteLen(s: string)
    requires IsAscii(s)
    ensures ByteLen(s) == |s|
  {
    if |s| > 0 {
      assert IsAscii(s[..|s| - 1]);
      AsciiByteLen(s[..|s| - 1]);
    }
  }

  /** The character index at which byte offset `b` falls, at `from` or later, when `b` is a character boundary. */
  function CharIndexAt(s: string, b: nat, from: nat): (r: Option<nat>)
    requires from <= |s|
    ensures r.None? <==> forall k :: from <= k <= |s| ==> ByteLen(s[..k]) != b
    ensures r.Some? ==> from <= r.value <= |s| && ByteLen(s[..r.value]) == b
    decreases |s| - from
  {
    if ByteLen(s[..from]) == b then Some(from)
    else if from == |s| then None
    else CharIndexAt(s, b, from + 1)
  }

  /**
   * `&s[a..b]` with byte offsets: the characters between the two offsets, or
   * `None` where Rust panics because an offset is not on a character
   * boundary, lies past the end, or the range is reversed.
   */
  function ByteSlice(s: string, a: nat, b: nat): (r: Option<string>)
    ensures r.Some? ==> ByteLen(r.value) == b - a
    ensures r.Some? ==> exists i, j :: (0 <= i <= j <= |s| &&
      ByteLen(s[..i]) == a && ByteLen(s[..j]) == b && r.value == s[i..j])
  {
    match (CharIndexAt(s, a, 0), CharIndexAt(s, b, 0))
    case (Some(i), Some(j)) =>
      if i <= j then
        ByteLenSplit(s[..j], i);
        assert s[..j][..i] == s[..i];
        Some(s[i..j])
      else None
    case _ => None
  }

  /**
   * The converse: when both offsets are character boundaries, in order, the
   * slice does not panic and holds the characters between them.
   */
  lemma ByteSliceAt(s: string, a: nat, b: nat, i: nat, j: nat)
    requires i <= j <= |s| && ByteLen(s[..i]) == a && ByteLen(s[..j]) == b
    ensures ByteSlice(s, a, b) == Some(s[i..j])
  {
    var ri, rj := CharIndexAt(s, a, 0).value, CharIndexAt(s, b, 0).value;
    if ri < i { ByteLenGrows(s, ri, i); } else if ri > i { ByteLenGrows(s, i, ri); }
    if rj < j { ByteLenGrows(s, rj, j); } else if rj > j { ByteLenGrows(s, j, rj); }
  }

  /** The bytes of a text are those of its two halves. */
  lemma {:induction false} ByteLenSplit(s: string, i: nat)
    requires i <= |s|
    ensures ByteLen(s) == ByteLen(s[..i]) + ByteLen(s[i..])
  {
    if i < |s| {
      ByteLenSplit(s[..|s| - 1], i);
      assert s[..|s| - 1][..i] == s[..i];
      assert s[i..][..|s[i..]| - 1] == s[..|s| - 1][i..];
      assert s[i..][|s[i..]| - 1] == s[|s| - 1];
    } else {
      assert s[..i] == s;
    }
  }

  /** `b` is the byte offset at which some character of `s` starts, or the end of `s`. */
  predicate IsBoundary(s: string, b: nat)
  {
    exists k :: 0 <= k <= |s| && ByteLen(s[..k]) == b
  }

  /** `&s[..b]`: it panics exactly off a boundary, and otherwise is a character prefix. */
  lemma PrefixSlice(s: string, b: nat)
    ensures ByteSlice(s, 0, b).Some? <==> IsBoundary(s, b)
    ensures ByteSlice(s, 0, b).Some? ==>
      exists j :: 0 <= j <= |s| && ByteLen(s[..j]) == b && ByteSlice(s, 0, b).value == s[..j]
  {
    if IsBoundary(s, b) {
      var k :| 0 <= k <= |s| && ByteLen(s[..k]) == b;
      ByteSliceAt(s, 0, b, 0, k);
    }
  }

  /** `&s[a..]`: it panics exactly off a boundary, and otherwise is a character suffix. */
  lemma SuffixSlice(s: string, a: nat)
    ensures ByteSlice(s, a, ByteLen(s)).Some? <==> IsBoundary(s, a)
    ensures ByteSlice(s, a, ByteLen(s)).Some? ==>
      exists i :: 0 <= i <= |s| && ByteLen(s[..i]) == a && ByteSlice(s, a, ByteLen(s)).value == s[i..]
  {
    assert s[..|s|] == s;
    if IsBoundary(s, a) {
      var k :| 0 <= k <= |s| && ByteLen(s[..k]) == a;
      ByteSliceAt(s, a, ByteLen(s), k, |s|);
      assert s[k..|s|] == s[k..];
    }
    if ByteSlice(s, a, ByteLen(s)).Some? {
      var i, j :| 0 <= i <= j <= |s| && ByteLen(s[..i]) == a && ByteLen(s[..j]) == ByteLen(s) &&
        ByteSlice(s, a, ByteLen(s)).value == s[i..j];
      if j < |s| {
        ByteLenGrows(s, j, |s|);
      }
      assert s[i..j] == s[i..];
    }
  }

  /** What goes wrong when a line is parsed as written. */
  datatype Fault = SliceOffCharBoundary | UnwrapOnNone(token: string)

  /**
   * One line of `list_packages` as written: the scan's character counts are
   * used as byte offsets for the token and the description.
   */
  function ParseLineAsWritten(line: string): (r: Result<Option<Package>, Fault>)
    ensures r == Success(None) <==> ClassifyLine(line).Skipped?
    ensures r == Failure(SliceOffCharBoundary) ==>
      (ClassifyLine(line).Fields? &&
       (!IsBoundary(line, ClassifyLine(line).spaceStart) || !IsBoundary(line, ClassifyLine(line).spaceEnd)))
    ensures ClassifyLine(line).Fields? && !IsBoundary(line, ClassifyLine(line).spaceStart) ==>
      r == Failure(SliceOffCharBoundary)
    ensures (ClassifyLine(line).Fields? && IsBoundary(line, ClassifyLine(line).spaceStart) &&
             IsBoundary(line, ClassifyLine(line).spaceEnd)) ==>
      r != Failure(SliceOffCharBoundary)
    ensures r.Failure? && r.error.UnwrapOnNone? ==>
      ClassifyLine(line).Fields? && '-' !in r.error.token &&
      exists i :: 0 <= i <= |line| && ByteLen(line[..i]) == ClassifyLine(line).spaceStart &&
        r.error.token == line[..i]
    ensures r.Success? && r.value.Some? ==>
      var p := r.value.value;
      '-' !in p.version && p.dependencies == [] &&
      exists i, j :: 0 <= i <= |line| && 0 <= j <= |line| &&
        ByteLen(line[..i]) == ClassifyLine(line).spaceStart &&
        ByteLen(line[..j]) == ClassifyLine(line).spaceEnd &&
        p.name + "-" + p.version == line[..i] && p.description == line[j..]
  {
    match ClassifyLine(line)
    case Skipped => Success(None)
    case Fields(s, e) =>
      PrefixSlice(line, s);
      SuffixSlice(line, e);
      match ByteSlice(line, 0, s)
      case None => Failure(SliceOffCharBoundary)
      case Some(token) =>
        match SplitNameVersion(token)
        case None => Failure(UnwrapOnNone(token))
        case Some((name, version)) =>
          match ByteSlice(line, e, ByteLen(line))
          case None => Failure(SliceOffCharBoundary)
          case Some(description) => Success(Some(Package(name, version, description, [])))
  }

  /**
   * Whenever the token before the first space is ASCII, the code as written
   * does what `Catalog.ParseLine` states: the same packages, the same skipped
   * lines, the same panics. Only a non-ASCII character before the
   * description can make the two differ.
   */
  lemma AsWrittenAgreesOnAscii(line: string)
    requires ClassifyLine(line).Fields? ==> IsAscii(Token(line))
    ensures ParseLine(line).Success? ==> ParseLineAsWritten(line) == Success(ParseLine(line).value)
    ensures ParseLine(line).Failure? ==>
      ParseLineAsWritten(line) == Failure(UnwrapOnNone(ParseLine(line).error.token))
  {
    match ClassifyLine(line)
    case Skipped =>
    case Fields(s, e) =>
      assert IsAscii(line[..e]) by {
        forall j | 0 <= j < e ensures (line[..e][j] as int) < 0x80 {
          if j < s {
            assert line[..e][j] == Token(line)[j];
          }
        }
      }
      assert line[..e][..s] == line[..s];
      AsciiByteLen(line[..e]);
      AsciiByteLen(line[..s]);
      ByteSliceAt(line, 0, s, 0, s);
      assert line[0..s] == line[..s];
      assert line[..|line|] == line;
      ByteSliceAt(line, e, ByteLen(line), e, |line|);
      assert line[e..|line|] == line[e..];
  }

  /** A byte offset one past the start of a multi-byte character is not a boundary. */
  lemma InsideWideChar(s: string, i: nat)
    requires i < |s| && Utf8Width(s[i]) > 1
    ensures CharIndexAt(s, ByteLen(s[..i]) + 1, 0).None?
  {
    var b := ByteLen(s[..i]) + 1;
    forall k | 0 <= k <= |s| ensures ByteLen(s[..k]) != b {
      if k < i {
        ByteLenGrows(s, k, i);
      } else if k > i {
        ByteLenGrows(s, i, k);
      }
    }
  }

  /**
   * The line `a-é x` is a package `a`, version `é`, description `x`, but the
   * code as written cuts its token three bytes in, inside the two-byte `é`,
   * and panics.
   */
  // The line and the package are parameters pinned to literals so that the
  // verifier does not unfold the parser on a literal argument.
  lemma AsWrittenPanicsOnWideVersion(line: string, p: Package)
    requires line == "a-\U{E9} x"
    requires p == Package("a", "\U{E9}", "x", [])
    ensures ParseLine(line) == Success(Some(p))
    ensures ParseLineAsWritten(line) == Failure(SliceOffCharBoundary)
  {
    assert line == FormatLine(p, " ");
    WideVersionParses(line, p);
    assert IsAscii(line[..2]);
    AsciiByteLen(line[..2]);
    assert Utf8Width(line[2]) == 2;
    InsideWideChar(line, 2);
    assert CharIndexAt(line, 3, 0).None?;
  }

  /** Helper for the line above: the intended parser yields `p` (parameters as above). */
  lemma WideVersionParses(line: string, p: Package)
    requires line == FormatLine(p, " ")
    requires p == Package("a", "\U{E9}", "x", [])
    ensures ParseLine(line) == Success(Some(p))
    ensures ClassifyLine(line) == Fields(3, 4)
  {
    assert ' ' !in p.name;
    assert ' ' !in p.version && '-' !in p.version;
    ParseFormatLine(p, " ");
    ClassifyLineUnique(p.name + "-" + p.version, " ", p.description);
    assert line == (p.name + "-" + p.version) + " " + p.description;
  }
}
