/**
 * `is_gzip_file`: a log file is opened through gzip when the last
 * '.'-separated piece of its path is "gz".
 */
module FileNames {

  /** Python's `s.split(sep)` for a one-character separator: never empty. */
  function Split(s: string, sep: char): (pieces: seq<string>)
    ensures |pieces| >= 1
    ensures forall i :: 0 <= i < |pieces| ==> sep !in pieces[i]
    ensures |pieces| == 1 <==> sep !in s
    ensures |pieces| == 1 ==> pieces[0] == s
  {
    if s == [] then [[]]
    else
      var tail := Split(s[1..], sep);
      if s[0] == sep then [[]] + tail
      else [[s[0]] + tail[0]] + tail[1..]
  }

  /** `split(sep)[-1]` */
  function LastPiece(s: string, sep: char): string {
    var pieces := Split(s, sep);
    pieces[|pieces| - 1]
  }

  /** Whether the path names a gzip-compressed log. */
  predicate IsGzipFile(path: string) {
    LastPiece(path, '.') == "gz"
  }

  /**
   * The last piece is the longest suffix of `s` that holds no separator:
   * it is a suffix, and it is either all of `s` or preceded by a separator.
   */
  lemma {:induction false} LastPieceIsSuffix(s: string, sep: char)
    ensures var last := LastPiece(s, sep);
      && |last| <= |s| && s[|s| - |last|..] == last && sep !in last
      && (|last| == |s| || s[|s| - |last| - 1] == sep)
      && (|last| == |s| <==> sep !in s)
  {
    if s != [] {
      LastPieceIsSuffix(s[1..], sep);
      var tail := Split(s[1..], sep);
      if s[0] == sep {
        assert Split(s, sep) == [[]] + tail;
      } else if |tail| > 1 {
        assert Split(s, sep)[|Split(s, sep)| - 1] == tail[|tail| - 1];
      } else {
        assert s == [s[0]] + s[1..];
      }
    }
  }

  /** A path is gzip exactly when it is "gz" or ends with ".gz". */
  lemma IsGzipFileIff(path: string)
    ensures IsGzipFile(path) <==> path == "gz" || (|path| >= 3 && path[|path| - 3..] == ".gz")
  {
    LastPieceIsSuffix(path, '.');
    var last := LastPiece(path, '.');
    if |path| >= 3 && path[|path| - 3..] == ".gz" {
      assert path[|path| - 3] == '.';
      assert last == path[|path| - 2..];
    }
    if last == "gz" && path != "gz" {
      assert path[|path| - 3..] == [path[|path| - 3]] + last;
    }
  }

  /** The repository's own example: "temp.txt" is not gzip. */
  lemma PlainTextIsNotGzip()
    ensures !IsGzipFile("temp.txt")
  {
    IsGzipFileIff("temp.txt");
  }
}
