/** Values shared by every part of the image generator model.

    Go strings and byte slices are both byte strings, and `[]byte(s)` copies
    the bytes unchanged; the model represents both as sequences of `char`,
    so that conversion is the identity. */
module Types {

  type Path = string
  type Bytes = seq<char>

  datatype Option<T> = None | Some(value: T)

  const TWO_63: int := 0x8000_0000_0000_0000
  const TWO_64: int := 0x1_0000_0000_0000_0000

  /** A value returned by `rand.Int63`: a non-negative 63-bit integer. */
  type Draw = x: int | 0 <= x < TWO_63

  /** Go's `int64` (the seed). */
  type Int64 = x: int | -TWO_63 <= x < TWO_63

  /** Go's `uint` on a 64-bit platform (layer size and layer count). */
  type Uint = x: int | 0 <= x < TWO_64

  /** Go's `int(x)` followed by 64-bit two's-complement wrap-around. */
  function WrapInt64(x: int): (r: Int64)
    ensures (r - x) % TWO_64 == 0
    ensures -TWO_63 <= x < TWO_63 ==> r == x
  {
    var m := x % TWO_64;
    if m >= TWO_63 then m - TWO_64 else m
  }

  /** The filesystem operations that can fail. WriteHeader and WriteBody are
      the two writes of one archive entry, keyed by the entry's path. */
  datatype Op = Mkdir | Stat | Read | Write | Create | WriteHeader | WriteBody

  /** A failed run: the operation and the path it was applied to, or the
      runtime panic of `make([]byte, n)` for a negative length. The path of
      a WriteHeader or WriteBody failure is the entry's: the Go errors for
      those two name no entry (only the archive file, through the wrapped
      I/O error), so the model adds it to identify the entry. */
  datatype Error = Failed(op: Op, path: Path) | LengthOutOfRange(n: int)

  /** Outcome of `os.Stat`. */
  datatype StatResult = Exists(size: nat) | NotExist | StatError

  /** File mode 0600 (octal) recorded in every archive header. */
  const ENTRY_MODE: int := 384

  /** One archive entry: the header fields the code sets, and the body bytes. */
  datatype Entry = Entry(name: Path, mode: int, size: nat, body: Bytes)

  /** Two updates of the same key leave only the second. */
  lemma UpdateTwice<K, V>(m: map<K, V>, k: K, a: V, b: V)
    ensures m[k := a][k := b] == m[k := b]
  {
  }

  /** Dropping a elements and then b more drops a + b. */
  lemma DropDrop<T>(s: seq<T>, a: nat, b: nat)
    requires a + b <= |s|
    ensures s[a..][b..] == s[a + b..]
  {
  }
}
