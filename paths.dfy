/** The names the generator derives from its parameters: the image directory
    from the seed and each pool file's path from the layer size and index.
    `path.Join` cleans its result; on the arguments it receives here that only
    drops the leading "./" of the base directory. */
module Paths {
  import opened Types

  const BaseImageDir: Path := "./generated-files"
  const DockerfilePath: Path := "./dockerfile.generated"

  predicate IsDigit(c: char) {
    '0' <= c <= '9'
  }

  function DigitChar(d: nat): (c: char)
    requires d < 10
    ensures IsDigit(c)
  {
    (('0' as int) + d) as char
  }

  /** `fmt.Sprintf("%d", n)` for n >= 0: decimal digits, no leading zeros. */
  function Decimal(n: nat): (s: string)
    ensures |s| >= 1
    ensures forall k :: 0 <= k < |s| ==> IsDigit(s[k])
    ensures (|s| == 1) == (n < 10)
    ensures n >= 10 ==> s[0] != '0'
  {
    if n < 10 then [DigitChar(n)] else Decimal(n / 10) + [DigitChar(n % 10)]
  }

  /** `fmt.Sprintf("%d", x)` for any integer. */
  function FormatInt(x: int): (s: string)
    ensures |s| >= 1
    ensures (s[0] == '-') == (x < 0)
  {
    if x < 0 then "-" + Decimal(-x) else Decimal(x)
  }

  /** `path.Join(baseImageDir, fmt.Sprintf("%d", seed))`. */
  function ImageDir(seed: Int64): (d: Path)
    ensures |d| > 16 && d[..16] == "generated-files/" && d[16..] == FormatInt(seed)
  {
    BaseImageDir[2..] + "/" + FormatInt(seed)
  }

  /** `fmt.Sprintf("random_%dKB_%d.txt", layerSizeKB, i)`. */
  function FileName(sizeKB: nat, i: nat): (n: string)
    ensures |n| >= 16 && n[..7] == "random_" && n[|n| - 4..] == ".txt"
    ensures forall k :: 0 <= k < |n| ==> n[k] != '/'
  {
    "random_" + Decimal(sizeKB) + "KB_" + Decimal(i) + ".txt"
  }

  /** `path.Join(dir, FileName(sizeKB, i))` for a directory that is already clean. */
  function FilePath(dir: Path, sizeKB: nat, i: nat): (p: Path)
    ensures |p| > |dir| + 1 && p[..|dir|] == dir && p[|dir|] == '/'
    ensures forall k :: |dir| < k < |p| ==> p[k] != '/'
  {
    dir + "/" + FileName(sizeKB, i)
  }

  /** Distinct numbers are printed differently. */
  lemma {:induction false} DecimalInjective(a: nat, b: nat)
    requires Decimal(a) == Decimal(b)
    ensures a == b
  {
    if a >= 10 && b >= 10 {
      var sa, sb := Decimal(a), Decimal(b);
      assert sa[..|sa| - 1] == Decimal(a / 10);
      assert sb[..|sb| - 1] == Decimal(b / 10);
      DecimalInjective(a / 10, b / 10);
      assert DigitChar(a % 10) == sa[|sa| - 1] == DigitChar(b % 10);
    }
  }

  lemma FormatIntInjective(x: int, y: int)
    requires FormatInt(x) == FormatInt(y)
    ensures x == y
  {
    var fx, fy := FormatInt(x), FormatInt(y);
    if x < 0 {
      assert fx[1..] == Decimal(-x);
      assert fy[1..] == Decimal(-y);
      DecimalInjective(-x, -y);
    } else {
      DecimalInjective(x, y);
    }
  }

  /** Distinct seeds get distinct image directories, so runs with different
      seeds never share pool files. */
  lemma ImageDirInjective(s: Int64, t: Int64)
    requires ImageDir(s) == ImageDir(t)
    ensures s == t
  {
    var prefix := BaseImageDir[2..] + "/";
    assert FormatInt(s) == ImageDir(s)[|prefix|..];
    assert FormatInt(t) == ImageDir(t)[|prefix|..];
    FormatIntInjective(s, t);
  }

  /** Within one directory and layer size, distinct indices give distinct
      pool paths. */
  lemma FilePathInjective(dir: Path, sizeKB: nat, i: nat, j: nat)
    requires FilePath(dir, sizeKB, i) == FilePath(dir, sizeKB, j)
    ensures i == j
  {
    var prefix := dir + "/" + "random_" + Decimal(sizeKB) + "KB_";
    var pi, pj := FilePath(dir, sizeKB, i), FilePath(dir, sizeKB, j);
    assert pi == prefix + Decimal(i) + ".txt";
    assert pj == prefix + Decimal(j) + ".txt";
    assert Decimal(i) == pi[|prefix|..|pi| - 4];
    assert Decimal(j) == pj[|prefix|..|pj| - 4];
    DecimalInjective(i, j);
  }

  /** Pool paths under the image directory never coincide with the manifest. */
  lemma FilePathIsNotDockerfile(seed: Int64, sizeKB: nat, i: nat)
    ensures FilePath(ImageDir(seed), sizeKB, i) != DockerfilePath
  {
    assert FilePath(ImageDir(seed), sizeKB, i)[0] == 'g';
    assert DockerfilePath[0] == '.';
  }
}
