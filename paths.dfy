/** The names the downloader derives from a book: `str(i)` for an image
    index, POSIX `os.path.join`, the remote image URL and the local file
    name. */
module Paths {

  /** The decimal digit for `d`. */
  function Digit(d: nat): (c: char)
    requires d < 10
    ensures '0' <= c <= '9'
  {
    (48 + d) as char
  }

  /** The value of a decimal digit. */
  function DigitValue(c: char): (d: nat)
    requires '0' <= c <= '9'
    ensures d < 10
  {
    c as int - 48
  }

  predicate AllDigits(s: string) {
    forall k :: 0 <= k < |s| ==> '0' <= s[k] <= '9'
  }

  /** Python's `str(n)` for a non-negative integer: decimal digits, most
      significant first, with no leading zero except for 0 itself. */
  function Decimal(n: nat): (s: string)
    ensures |s| >= 1 && AllDigits(s)
    ensures (s[0] == '0') == (n == 0)
  {
    if n < 10 then [Digit(n)] else Decimal(n / 10) + [Digit(n % 10)]
  }

  /** Reads decimal digits back into a number. */
  function ParseDecimal(s: string): nat
    requires AllDigits(s)
  {
    if s == [] then 0 else ParseDecimal(s[..|s| - 1]) * 10 + DigitValue(s[|s| - 1])
  }

  /** Reading the digits of `str(n)` gives back `n`. */
  lemma {:induction false} ParseDecimalOfDecimal(n: nat)
    ensures ParseDecimal(Decimal(n)) == n
  {
    var s := Decimal(n);
    if n >= 10 {
      ParseDecimalOfDecimal(n / 10);
      assert s[..|s| - 1] == Decimal(n / 10);
    }
  }

  /** Distinct indices have distinct decimal names. */
  lemma DecimalInjective(m: nat, n: nat)
    requires Decimal(m) == Decimal(n)
    ensures m == n
  {
    ParseDecimalOfDecimal(m);
    ParseDecimalOfDecimal(n);
  }

  /** POSIX `os.path.join(a, b)`: an absolute `b` replaces `a`; otherwise a
      `/` is inserted unless `a` is empty or already ends with one. */
  function Join(a: string, b: string): (r: string)
    ensures |r| >= |b| && r[|r| - |b|..] == b
    ensures (b == [] || b[0] != '/') ==> |r| >= |a| && r[..|a|] == a
  {
    if b != [] && b[0] == '/' then b
    else if a == [] || a[|a| - 1] == '/' then a + b
    else a + "/" + b
  }

  /** What `Join(a, _)` puts before a relative component. */
  function JoinPrefix(a: string): string {
    if a == [] || a[|a| - 1] == '/' then a else a + "/"
  }

  /** A relative component comes out of the join unchanged, after the
      directory and exactly one separator; an absolute one replaces the
      directory. */
  lemma JoinParts(a: string, b: string)
    ensures b != [] && b[0] == '/' ==> Join(a, b) == b
    ensures (b == [] || b[0] != '/') ==> Join(a, b) == JoinPrefix(a) + b
    ensures JoinPrefix(a) == [] || JoinPrefix(a)[|JoinPrefix(a)| - 1] == '/'
  {
  }

  /** The path part that the source appends to a book URL. */
  const ImagesPath: string := "/files/mobile/"

  /** `f"{i}.jpg"`: the file name of image `i`, remote and local. */
  /** An image file name is relative: it starts with a digit, not with `/`,
      and ends with `.jpg`. */
  function ImageFile(i: nat): (f: string)
    ensures |f| >= 5 && '0' <= f[0] <= '9'
    ensures f[|f| - 4..] == ".jpg"
  {
    Decimal(i) + ".jpg"
  }

  /** `url + str(i) + ".jpg"` with `url = book_url + "/files/mobile/"`. */
  function RemoteName(bookUrl: string, i: nat): (u: string)
    ensures |u| > |bookUrl + ImagesPath| && u[..|bookUrl + ImagesPath|] == bookUrl + ImagesPath
  {
    bookUrl + ImagesPath + ImageFile(i)
  }

  /** `os.path.join(directory_path, f"{i}.jpg")`. */
  function LocalName(dirPath: string, i: nat): (p: string)
    ensures |p| > |dirPath| && p[..|dirPath|] == dirPath
  {
    Join(dirPath, ImageFile(i))
  }

  /** The local file of image `i` is the directory, one separator and the
      image file name. */
  lemma LocalNameParts(dirPath: string, i: nat)
    ensures LocalName(dirPath, i) == JoinPrefix(dirPath) + ImageFile(i)
  {
    JoinParts(dirPath, ImageFile(i));
  }

  /** Distinct indices have distinct image file names. */
  lemma ImageFileInjective(i: nat, j: nat)
    requires ImageFile(i) == ImageFile(j)
    ensures i == j
  {
    var a, b := ImageFile(i), ImageFile(j);
    assert a[..|a| - 4] == Decimal(i);
    assert b[..|b| - 4] == Decimal(j);
    DecimalInjective(i, j);
  }

  /** Two images of one book never share a local file. */
  lemma LocalNameInjective(dirPath: string, i: nat, j: nat)
    requires LocalName(dirPath, i) == LocalName(dirPath, j)
    ensures i == j
  {
    var prefix := JoinPrefix(dirPath);
    LocalNameParts(dirPath, i);
    LocalNameParts(dirPath, j);
    assert ImageFile(i) == LocalName(dirPath, i)[|prefix|..];
    assert ImageFile(j) == LocalName(dirPath, j)[|prefix|..];
    ImageFileInjective(i, j);
  }

  /** The same, for all pairs of indices at once. */
  lemma LocalNamesInjective(dirPath: string)
    ensures forall i: nat, j: nat :: LocalName(dirPath, i) == LocalName(dirPath, j) ==> i == j
  {
    forall i: nat, j: nat | LocalName(dirPath, i) == LocalName(dirPath, j) ensures i == j {
      LocalNameInjective(dirPath, i, j);
    }
  }

  /** Two images of one book are never requested under the same URL. */
  lemma RemoteNameInjective(bookUrl: string, i: nat, j: nat)
    requires RemoteName(bookUrl, i) == RemoteName(bookUrl, j)
    ensures i == j
  {
    var prefix := bookUrl + ImagesPath;
    assert ImageFile(i) == RemoteName(bookUrl, i)[|prefix|..];
    assert ImageFile(j) == RemoteName(bookUrl, j)[|prefix|..];
    ImageFileInjective(i, j);
  }

  /** `str(12) + ".jpg"`, the file name of image 12. */
  lemma ImageFileTwelve()
    ensures ImageFile(12) == "12.jpg"
  {
    assert Decimal(1) == "1";
    assert Decimal(12) == "12";
  }

  /** A worked example of the request URL: image 12 of `http://host/book`. */
  lemma RemoteNameExample(bookUrl: string)
    requires bookUrl == "http://host/book"
    ensures RemoteName(bookUrl, 12) == "http://host/book/files/mobile/12.jpg"
  {
    ImageFileTwelve();
    assert RemoteName(bookUrl, 12) == bookUrl + ImagesPath + "12.jpg";
  }

  /** A worked example of the local path: image 12 saved in `./Title`. */
  lemma LocalNameExample(dirPath: string)
    requires dirPath == "./Title"
    ensures LocalName(dirPath, 12) == "./Title/12.jpg"
  {
    ImageFileTwelve();
    LocalNameParts(dirPath, 12);
    assert JoinPrefix(dirPath) == dirPath + "/";
  }
}
