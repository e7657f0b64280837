/**
 * The image public id that `deleteProduct` derives from a product's image URL
 * before asking the image host to destroy the asset:
 * `image.split("/").pop().split(".")[0]`, destroyed as `products/<id>`.
 */
module PublicId {

  /** JavaScript `String.prototype.split` with a one-character separator. */
  function Split(s: string, sep: char): (parts: seq<string>)
    ensures |parts| >= 1
    ensures forall i :: 0 <= i < |parts| ==> sep !in parts[i]
    ensures Join(parts, sep) == s
    ensures parts[0] <= s
  {
    if s == [] then [[]]
    else
      var tail := Split(s[1..], sep);
      if s[0] == sep then [[]] + tail
      else [[s[0]] + tail[0]] + tail[1..]
  }

  /** JavaScript `Array.prototype.join` with a one-character separator. */
  function Join(parts: seq<string>, sep: char): string
    requires |parts| >= 1
  {
    if |parts| == 1 then parts[0] else parts[0] + [sep] + Join(parts[1..], sep)
  }

  /** Splitting a joined list gives the list back when no piece contains the separator. */
  lemma {:induction false} SplitJoin(parts: seq<string>, sep: char)
    requires |parts| >= 1
    requires forall i :: 0 <= i < |parts| ==> sep !in parts[i]
    ensures Split(Join(parts, sep), sep) == parts
  {
    if |parts| == 1 {
      SplitPiece(parts[0], sep);
    } else {
      SplitJoin(parts[1..], sep);
      SplitPrefix(parts[0], Join(parts[1..], sep), sep);
    }
  }

  /** A string without the separator splits into itself. */
  lemma {:induction false} SplitPiece(s: string, sep: char)
    requires sep !in s
    ensures Split(s, sep) == [s]
  {
    if s != [] {
      SplitPiece(s[1..], sep);
    }
  }

  /** Splitting `w + sep + rest`, where `w` has no separator, puts `w` in front. */
  lemma {:induction false} SplitPrefix(w: string, rest: string, sep: char)
    requires sep !in w
    ensures Split(w + [sep] + rest, sep) == [w] + Split(rest, sep)
  {
    var s := w + [sep] + rest;
    if w == [] {
      assert s[0] == sep && s[1..] == rest;
    } else {
      assert s[0] == w[0] != sep;
      assert s[1..] == w[1..] + [sep] + rest;
      SplitPrefix(w[1..], rest, sep);
      var tail := Split(s[1..], sep);
      assert tail == [w[1..]] + Split(rest, sep);
      assert Split(s, sep) == [[w[0]] + tail[0]] + tail[1..];
      assert [w[0]] + w[1..] == w;
    }
  }

  /** Joining a list with at least two pieces ends with the separator and the last piece. */
  lemma {:induction false} JoinLast(parts: seq<string>, sep: char)
    requires |parts| >= 2
    ensures Join(parts, sep) == Join(parts[..|parts| - 1], sep) + [sep] + parts[|parts| - 1]
  {
    if |parts| > 2 {
      JoinLast(parts[1..], sep);
      assert parts[1..][..|parts| - 2] == parts[..|parts| - 1][1..];
    }
  }

  /** `split("/").pop()`: the text after the last '/', or the whole string when it has none. */
  function LastSegment(url: string): (seg: string)
    ensures '/' !in seg
  {
    var parts := Split(url, '/');
    parts[|parts| - 1]
  }

  /** `split(".")[0]` of the last segment: the public id of the image. */
  function ImagePublicId(url: string): (id: string)
    ensures '/' !in id && '.' !in id
  {
    var segment := LastSegment(url);
    var id := Split(segment, '.')[0];
    id
  }

  /** The identifier handed to the image host's destroy call. */
  function DestroyTarget(url: string): (target: string)
    ensures target == "products/" + ImagePublicId(url)
    ensures '.' !in target[9..] && '/' !in target[9..]
  {
    "products/" + ImagePublicId(url)
  }

  /** The URL is some `before`, empty or ending in '/', followed by its last segment. */
  lemma {:induction false} SegmentSuffix(url: string) returns (before: string)
    ensures url == before + LastSegment(url)
    ensures before == [] || before[|before| - 1] == '/'
  {
    var parts := Split(url, '/');
    if |parts| == 1 {
      before := [];
    } else {
      JoinLast(parts, '/');
      before := Join(parts[..|parts| - 1], '/') + ['/'];
    }
  }

  /** A segment is its public id followed by nothing or by a '.' and the rest. */
  lemma {:induction false} IdPrefix(segment: string) returns (after: string)
    ensures segment == Split(segment, '.')[0] + after
    ensures after == [] || after[0] == '.'
  {
    var pieces := Split(segment, '.');
    assert Join(pieces, '.') == segment;
    if |pieces| == 1 {
      after := [];
    } else {
      after := ['.'] + Join(pieces[1..], '.');
      assert Join(pieces, '.') == pieces[0] + [ '.'] + Join(pieces[1..], '.');
    }
  }

  /**
   * The public id is exactly the text after the last '/' up to the first '.':
   * the URL is `before + id + after`, where `before` is empty or ends in '/',
   * and `after` is empty or starts with '.' and contains no '/'.
   */
  lemma {:induction false} PublicIdDecomposition(url: string)
    ensures exists before: string, after: string ::
              && url == before + ImagePublicId(url) + after
              && (before == [] || before[|before| - 1] == '/')
              && (after == [] || after[0] == '.')
              && '/' !in after
  {
    var before := SegmentSuffix(url);
    var segment := LastSegment(url);
    var after := IdPrefix(segment);
    var id := ImagePublicId(url);
    assert segment == id + after;
    assert '/' !in after by {
      forall k | 0 <= k < |after| ensures after[k] != '/' {
        assert after[k] == segment[|id| + k];
      }
    }
    assert url == before + id + after;
  }
}
