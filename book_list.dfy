/** `read_book_urls`: the list of book URLs is the file's lines, each
    stripped, with the lines that strip to nothing dropped. Reading the file
    and splitting it into lines is I/O and is not part of this model; the
    lines arrive as a sequence of strings. */
module BookList {
  import opened Strings

  /** The list comprehension of `read_book_urls`. Every entry is non-empty
      and has no whitespace at either end, and there is at most one entry
      per line. */
  function ReadBookUrls(lines: seq<string>): (urls: seq<string>)
    ensures |urls| <= |lines|
    ensures forall k :: 0 <= k < |urls| ==> urls[k] != [] && Trimmed(urls[k])
  {
    if lines == [] then []
    else
      var url := Strip(lines[0]);
      (if url != [] then [url] else []) + ReadBookUrls(lines[1..])
  }

  /** The filter works line by line and keeps the order of the file: the
      URLs of two files one after the other are those of the first, then
      those of the second. */
  lemma {:induction false} ReadBookUrlsAppend(a: seq<string>, b: seq<string>)
    ensures ReadBookUrls(a + b) == ReadBookUrls(a) + ReadBookUrls(b)
  {
    if a == [] {
      assert a + b == b;
    } else {
      var url := Strip(a[0]);
      var head := if url != [] then [url] else [];
      assert (a + b)[0] == a[0] && (a + b)[1..] == a[1..] + b;
      assert ReadBookUrls(a + b) == head + ReadBookUrls(a[1..] + b);
      ReadBookUrlsAppend(a[1..], b);
      assert head + (ReadBookUrls(a[1..]) + ReadBookUrls(b)) == (head + ReadBookUrls(a[1..])) + ReadBookUrls(b);
    }
  }

  /** A single line yields its stripped form, or nothing when it is blank. */
  lemma ReadBookUrlsLine(line: string)
    ensures ReadBookUrls([line]) == if Strip(line) == [] then [] else [Strip(line)]
  {
    assert [line][1..] == [];
  }

  /** A URL is in the list exactly when it is non-empty and is the stripped
      form of some line. */
  lemma {:induction false} ReadBookUrlsMembership(lines: seq<string>, url: string)
    ensures url in ReadBookUrls(lines) <==> url != [] && exists k :: 0 <= k < |lines| && Strip(lines[k]) == url
  {
    if lines != [] {
      ReadBookUrlsMembership(lines[1..], url);
      if exists k :: 0 <= k < |lines| && Strip(lines[k]) == url {
        var k :| 0 <= k < |lines| && Strip(lines[k]) == url;
        if k > 0 {
          assert Strip(lines[1..][k - 1]) == url;
        }
      }
      if exists k :: 0 <= k < |lines[1..]| && Strip(lines[1..][k]) == url {
        var k :| 0 <= k < |lines[1..]| && Strip(lines[1..][k]) == url;
        assert Strip(lines[k + 1]) == url;
      }
    }
  }

  /** Reading back a list the filter produced changes nothing: its entries
      are already stripped and non-empty. */
  lemma {:induction false} ReadBookUrlsIdempotent(lines: seq<string>)
    ensures ReadBookUrls(ReadBookUrls(lines)) == ReadBookUrls(lines)
  {
    if lines != [] {
      var url := Strip(lines[0]);
      var rest := ReadBookUrls(lines[1..]);
      ReadBookUrlsIdempotent(lines[1..]);
      if url != [] {
        StripTrimmed(url);
        ReadBookUrlsLine(url);
        ReadBookUrlsAppend([url], rest);
      } else {
        assert ReadBookUrls(lines) == rest;
      }
    }
  }
}
