/** Paths as the organize functions see them: a path is a sequence of components, and a
    component is a platform string (`OsStr`), which on Unix may hold bytes that are not
    valid UTF-8. */
module Paths {
  import opened Options

  /** A byte that can fall outside every valid UTF-8 sequence: an ASCII byte always
      decodes to its character. */
  type HighByte = b: bv8 | 0x80 <= b witness 0x80

  /** One unit of a platform string: a decoded character, or a byte that belongs to no
      valid UTF-8 sequence. A name is held decoded: every valid UTF-8 sequence in it is
      its character. */
  datatype OsUnit = Char(c: char) | Raw(b: HighByte)

  /** One path component (a file or directory name). */
  type Name = seq<OsUnit>

  /** A path, as the sequence of its components below the file-system root. */
  type Path = seq<Name>

  const Dot: OsUnit := Char('.')
  const DotDot: Name := [Dot, Dot]

  /** The platform string holding the characters of `s`. */
  function Chars(s: string): (n: Name)
    ensures |n| == |s|
    ensures forall i :: 0 <= i < |s| ==> n[i] == Char(s[i])
  {
    if s == [] then [] else [Char(s[0])] + Chars(s[1..])
  }

  /** `OsStr::to_str`: the text of `n` when all of it is valid UTF-8. */
  function ToStr(n: Name): (r: Option<string>)
    ensures r.Some? <==> forall i :: 0 <= i < |n| ==> n[i].Char?
    ensures r.Some? ==> Chars(r.value) == n
  {
    if n == [] then Some("")
    else if n[0].Raw? then None
    else match ToStr(n[1..])
      case None => None
      case Some(rest) =>
        assert n == [n[0]] + n[1..];
        Some([n[0].c] + rest)
  }

  /** Text survives the trip into a platform string and back. */
  lemma {:induction false} ToStrChars(s: string)
    ensures ToStr(Chars(s)) == Some(s)
  {
    if s != [] {
      ToStrChars(s[1..]);
      assert Chars(s)[1..] == Chars(s[1..]);
      assert [s[0]] + s[1..] == s;
    }
  }

  /** Different texts make different platform strings. */
  lemma CharsInjective(a: string, b: string)
    ensures Chars(a) == Chars(b) <==> a == b
  {
    ToStrChars(a);
    ToStrChars(b);
  }

  /** The last component of a path (`Path::file_name`). */
  function FileName(p: Path): (r: Option<Name>)
    ensures r.Some? <==> p != []
    ensures r.Some? ==> p == p[..|p| - 1] + [r.value]
  {
    if p == [] then None else Some(p[|p| - 1])
  }

  /** The directory that holds `p`. */
  function Parent(p: Path): Path
    requires p != []
  {
    p[..|p| - 1]
  }

  /** The position of the last `.` in `n`, if there is one. */
  function LastDot(n: Name): (r: Option<nat>)
    ensures r.Some? ==> r.value < |n| && n[r.value] == Dot
                        && forall j :: r.value < j < |n| ==> n[j] != Dot
    ensures r.None? ==> forall j :: 0 <= j < |n| ==> n[j] != Dot
  {
    if n == [] then None
    else if n[|n| - 1] == Dot then Some(|n| - 1)
    else LastDot(n[..|n| - 1])
  }

  /** `Path::extension` of a file named `n`: the text after the last `.`, absent when the
      name is `..`, has no `.`, or has its only `.` in first position. */
  function Extension(n: Name): Option<Name> {
    if n == DotDot then None
    else match LastDot(n)
      case None => None
      case Some(k) => if k == 0 then None else Some(n[k + 1..])
  }

  /** The extension is absent exactly for `..` and for names with no `.` after the first
      position; when present it is the dot-free tail after a `.` that has something in
      front of it. */
  lemma ExtensionCases(n: Name)
    ensures Extension(n).None? <==> n == DotDot || forall k :: 0 < k < |n| ==> n[k] != Dot
    ensures Extension(n).Some? ==>
              var x := Extension(n).value;
              var k := |n| - |x| - 1;
              0 < k && n[k] == Dot && n == n[..k] + [Dot] + x && Dot !in x
  {
    match LastDot(n)
    case None =>
    case Some(k) =>
      if n != DotDot && k != 0 {
        assert n == n[..k] + [Dot] + n[k + 1..];
      }
  }

  /** A non-empty stem, a `.` and a dot-free tail: the tail is the extension, even when it
      is empty (`notes.` has the empty extension). */
  lemma ExtensionOfStemDot(stem: Name, x: Name)
    requires stem != [] && Dot !in x && stem + [Dot] + x != DotDot
    ensures Extension(stem + [Dot] + x) == Some(x)
  {
    var n := stem + [Dot] + x;
    assert n[|stem|] == Dot;
    assert forall j :: |stem| < j < |n| ==> n[j] == x[j - |stem| - 1];
    assert n[|stem| + 1..] == x;
  }
}
