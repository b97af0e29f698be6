/** The build manifest of `generateDockerfile`: a fixed header line and one
    ADD directive per file, in list order. */
module Manifest {
  import opened Types

  /** The first line, "FROM scratch" and a newline. */
  const Header: string := From + "\n"
  const From: string := "FROM scratch"

  /** `fmt.Sprintf("ADD %s /opt\n", p)`. */
  function Directive(p: Path): (d: string)
    ensures |d| == |p| + 10
  {
    Add + p + Opt + "\n"
  }
  const Add: string := "ADD "
  const Opt: string := " /opt"

  /** The directives the loop has appended after reading all of `ps`. */
  function Directives(ps: seq<Path>): (d: string)
    ensures |d| >= 10 * |ps|
  {
    if ps == [] then "" else Directives(ps[..|ps| - 1]) + Directive(ps[|ps| - 1])
  }

  /** The manifest text for the path list `ps`. */
  function ManifestText(ps: seq<Path>): (m: string)
    ensures |m| >= 13 + 10 * |ps|
  {
    Header + Directives(ps)
  }

  /** The manifest starts with the header line and, like every directive,
      ends with a newline. */
  lemma ManifestFrame(ps: seq<Path>)
    ensures var m := ManifestText(ps);
      m[..13] == "FROM scratch\n" && m[|m| - 1] == '\n'
  {
    var m := ManifestText(ps);
    assert m[..13] == Header;
    if ps != [] {
      var d := Directives(ps);
      assert d[|d| - 1] == Directive(ps[|ps| - 1])[|Directive(ps[|ps| - 1])| - 1];
      assert m[|m| - 1] == d[|d| - 1];
    }
  }

  /** Reference reading: the directive of the first path, then those of the
      others. */
  function EachDirective(ps: seq<Path>): string {
    if ps == [] then "" else Directive(ps[0]) + EachDirective(ps[1..])
  }

  lemma {:induction false} EachDirectiveAppend(ps: seq<Path>, qs: seq<Path>)
    ensures EachDirective(ps + qs) == EachDirective(ps) + EachDirective(qs)
  {
    if ps == [] {
      assert ps + qs == qs;
    } else {
      assert (ps + qs)[0] == ps[0];
      assert (ps + qs)[1..] == ps[1..] + qs;
      EachDirectiveAppend(ps[1..], qs);
    }
  }

  /** The text the loop accumulates is the directive of every path, first
      to last. */
  lemma {:induction false} DirectivesInOrder(ps: seq<Path>)
    ensures Directives(ps) == EachDirective(ps)
  {
    if ps != [] {
      var init, last := ps[..|ps| - 1], ps[|ps| - 1];
      DirectivesInOrder(init);
      assert ps == init + [last];
      EachDirectiveAppend(init, [last]);
    }
  }

  /** Manifests of consecutive lists concatenate. */
  lemma {:induction false} DirectivesAppend(ps: seq<Path>, qs: seq<Path>)
    ensures Directives(ps + qs) == Directives(ps) + Directives(qs)
  {
    DirectivesInOrder(ps + qs);
    DirectivesInOrder(ps);
    DirectivesInOrder(qs);
    EachDirectiveAppend(ps, qs);
  }

  function Count(s: string, c: char): nat {
    if s == [] then 0 else (if s[0] == c then 1 else 0) + Count(s[1..], c)
  }

  lemma {:induction false} CountAppend(s: string, t: string, c: char)
    ensures Count(s + t, c) == Count(s, c) + Count(t, c)
  {
    if s == [] {
      assert s + t == t;
    } else {
      assert (s + t)[0] == s[0];
      assert (s + t)[1..] == s[1..] + t;
      CountAppend(s[1..], t, c);
    }
  }

  /** A string without c holds no c. */
  lemma {:induction false} CountAbsent(s: string, c: char)
    requires c !in s
    ensures Count(s, c) == 0
  {
    if s != [] {
      assert s == [s[0]] + s[1..];
      CountAbsent(s[1..], c);
    }
  }

  function TotalLength(ps: seq<Path>): nat {
    if ps == [] then 0 else |ps[0]| + TotalLength(ps[1..])
  }

  /** When no path holds a newline, the manifest has exactly one line per
      path after the header line. */
  lemma ManifestLines(ps: seq<Path>)
    requires forall k :: 0 <= k < |ps| ==> Count(ps[k], '\n') == 0
    ensures Count(ManifestText(ps), '\n') == |ps| + 1
  {
    DirectivesInOrder(ps);
    EachDirectiveLines(ps);
    HeaderLine();
    CountAppend(Header, Directives(ps), '\n');
  }

  /** For any paths, the manifest is 13 bytes of header plus 10 bytes of
      directive around each path. */
  lemma ManifestLength(ps: seq<Path>)
    ensures |ManifestText(ps)| == |Header| + 10 * |ps| + TotalLength(ps)
  {
    DirectivesInOrder(ps);
    EachDirectiveLength(ps);
  }

  /** The header is one line. */
  lemma HeaderLine()
    ensures Count(Header, '\n') == 1
  {
    FromHasNoNewline();
    SingleNewline();
    CountAppend(From, "\n", '\n');
  }

  lemma FromHasNoNewline()
    ensures Count(From, '\n') == 0
  {
    CountAbsent(From, '\n');
  }

  lemma SingleNewline()
    ensures Count("\n", '\n') == 1
  {
    assert "\n"[1..] == [];
  }

  lemma {:induction false} EachDirectiveLength(ps: seq<Path>)
    ensures |EachDirective(ps)| == 10 * |ps| + TotalLength(ps)
  {
    if ps != [] {
      EachDirectiveLength(ps[1..]);
    }
  }

  lemma {:induction false} EachDirectiveLines(ps: seq<Path>)
    requires forall k :: 0 <= k < |ps| ==> Count(ps[k], '\n') == 0
    ensures Count(EachDirective(ps), '\n') == |ps|
  {
    if ps != [] {
      EachDirectiveLines(ps[1..]);
      DirectiveLine(ps[0]);
      CountAppend(Directive(ps[0]), EachDirective(ps[1..]), '\n');
    }
  }

  /** A directive for a path without a newline is one line, 10 bytes longer
      than the path. */
  lemma DirectiveLine(p: Path)
    requires Count(p, '\n') == 0
    ensures Count(Directive(p), '\n') == 1 && |Directive(p)| == 10 + |p|
  {
    CountAbsent(Add, '\n');
    CountAbsent(Opt, '\n');
    SingleNewline();
    CountAppend(Add, p, '\n');
    CountAppend(Add + p, Opt, '\n');
    CountAppend(Add + p + Opt, "\n", '\n');
  }
}
