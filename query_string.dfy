/**
 * `buildQueryString` of src/App.tsx: every entry of the parameter object
 * becomes `encodeURIComponent(key)=encodeURIComponent(value)` and the
 * entries are joined with `&`. A parser that splits the string again is
 * proved to be its inverse.
 */
module QueryString {
  import opened Wrappers
  import opened UriComponent

  /** The parameter object, as the list of entries `Object.entries` yields, in order. */
  type Params = seq<(string, string)>

  /** One `key=value` segment, both sides encoded. */
  function Pair(key: string, value: string): string {
    Encode(key) + "=" + Encode(value)
  }

  /** The segments, one per entry and in entry order (the `.map` step). */
  function Segments(ps: Params): seq<string> {
    seq(|ps|, i requires 0 <= i < |ps| => Pair(ps[i].0, ps[i].1))
  }

  /** `Array.prototype.join` with a one-character separator. */
  function Join(parts: seq<string>, sep: char): string {
    if |parts| == 0 then []
    else if |parts| == 1 then parts[0]
    else parts[0] + [sep] + Join(parts[1..], sep)
  }

  /** `buildQueryString(params)`. */
  function BuildQueryString(ps: Params): string {
    Join(Segments(ps), '&')
  }

  /** How many times c occurs in s. */
  function Occurrences(s: string, c: char): nat {
    if s == [] then 0 else (if s[0] == c then 1 else 0) + Occurrences(s[1..], c)
  }

  /**
   * `String.prototype.split` with a one-character separator: the parts
   * between separators, one more part than there are separators, none of
   * them holding the separator.
   */
  function Split(s: string, sep: char): (parts: seq<string>)
    ensures |parts| == Occurrences(s, sep) + 1
    ensures forall i :: 0 <= i < |parts| ==> sep !in parts[i]
  {
    if s == [] then [[]]
    else
      var rest := Split(s[1..], sep);
      if s[0] == sep then [[]] + rest else [[s[0]] + rest[0]] + rest[1..]
  }

  /** Reads one `key=value` segment back into its decoded entry. */
  function ParsePair(segment: string): Option<(string, string)> {
    var sides := Split(segment, '=');
    if |sides| != 2 then None
    else
      match (Decode(sides[0]), Decode(sides[1]))
      case (Some(k), Some(v)) => Some((k, v))
      case _ => None
  }

  function ParsePairs(segments: seq<string>): Option<Params> {
    if segments == [] then Some([])
    else
      match (ParsePair(segments[0]), ParsePairs(segments[1..]))
      case (Some(p), Some(ps)) => Some([p] + ps)
      case _ => None
  }

  /** Reads a query string back into its entries; the empty string has none. */
  function ParseQueryString(q: string): Option<Params> {
    if q == [] then Some([]) else ParsePairs(Split(q, '&'))
  }

  // ---------------------------------------------------------------------
  // Split and Join.
  // ---------------------------------------------------------------------

  lemma {:induction false} OccurrencesConcat(a: string, b: string, c: char)
    ensures Occurrences(a + b, c) == Occurrences(a, c) + Occurrences(b, c)
  {
    if a == [] {
      assert a + b == b;
    } else {
      OccurrencesConcat(a[1..], b, c);
      assert (a + b)[1..] == a[1..] + b;
    }
  }

  lemma {:induction false} OccurrencesAbsent(s: string, c: char)
    requires c !in s
    ensures Occurrences(s, c) == 0
  {
    if s != [] {
      assert c !in s[1..];
      OccurrencesAbsent(s[1..], c);
    }
  }

  lemma {:induction false} SplitAbsent(a: string, sep: char)
    requires sep !in a
    ensures Split(a, sep) == [a]
  {
    if a != [] {
      assert sep !in a[1..];
      SplitAbsent(a[1..], sep);
      assert [a[0]] + a[1..] == a;
    }
  }

  lemma {:induction false} SplitFirst(a: string, sep: char, b: string)
    requires sep !in a
    ensures Split(a + [sep] + b, sep) == [a] + Split(b, sep)
  {
    var s := a + [sep] + b;
    if a == [] {
      assert s[0] == sep && s[1..] == b;
    } else {
      assert sep !in a[1..];
      SplitFirst(a[1..], sep, b);
      assert s[0] == a[0] && s[1..] == a[1..] + [sep] + b;
      assert [a[0]] + a[1..] == a;
    }
  }

  /** Splitting a join gives the parts back, when no part holds the separator. */
  lemma {:induction false} SplitJoin(parts: seq<string>, sep: char)
    requires |parts| >= 1
    requires forall i :: 0 <= i < |parts| ==> sep !in parts[i]
    ensures Split(Join(parts, sep), sep) == parts
  {
    if |parts| == 1 {
      SplitAbsent(parts[0], sep);
    } else {
      SplitJoin(parts[1..], sep);
      SplitFirst(parts[0], sep, Join(parts[1..], sep));
      assert [parts[0]] + parts[1..] == parts;
    }
  }

  /** Joining the parts of a split gives the string back. */
  lemma {:induction false} JoinSplit(s: string, sep: char)
    ensures Join(Split(s, sep), sep) == s
  {
    if s != [] {
      JoinSplit(s[1..], sep);
      var rest := Split(s[1..], sep);
      if s[0] == sep {
        assert ([[]] + rest)[1..] == rest;
        assert [s[0]] + s[1..] == s;
      } else {
        var parts := [[s[0]] + rest[0]] + rest[1..];
        if |rest| == 1 {
          assert [s[0]] + s[1..] == s;
        } else {
          assert parts[1..] == rest[1..];
          assert Join(rest, sep) == rest[0] + [sep] + Join(rest[1..], sep);
          assert [s[0]] + s[1..] == s;
        }
      }
    }
  }

  // ---------------------------------------------------------------------
  // What buildQueryString promises.
  // ---------------------------------------------------------------------

  lemma PairHasNoAmpersand(key: string, value: string)
    ensures '&' !in Pair(key, value)
    ensures Split(Pair(key, value), '=') == [Encode(key), Encode(value)]
  {
    EncodeHasNoSeparators(key);
    EncodeHasNoSeparators(value);
    SplitFirst(Encode(key), '=', Encode(value));
    SplitAbsent(Encode(value), '=');
  }

  /** No parameters give the empty string, and only they do. */
  lemma BuildEmpty(ps: Params)
    ensures BuildQueryString(ps) == [] <==> ps == []
  {
  }

  /** n entries are separated by exactly n - 1 ampersands. */
  lemma {:induction false} BuildSeparatorCount(ps: Params)
    ensures Occurrences(BuildQueryString(ps), '&') == if ps == [] then 0 else |ps| - 1
  {
    if ps != [] {
      PairHasNoAmpersand(ps[0].0, ps[0].1);
      OccurrencesAbsent(Pair(ps[0].0, ps[0].1), '&');
      if |ps| > 1 {
        BuildSeparatorCount(ps[1..]);
        assert Segments(ps)[1..] == Segments(ps[1..]);
        OccurrencesConcat(Pair(ps[0].0, ps[0].1) + ['&'], BuildQueryString(ps[1..]), '&');
        OccurrencesConcat(Pair(ps[0].0, ps[0].1), ['&'], '&');
      }
    }
  }

  /** The query string splits at `&` into one segment per entry, in entry order. */
  lemma BuildSplits(ps: Params)
    requires ps != []
    ensures Split(BuildQueryString(ps), '&') == Segments(ps)
  {
    var segs := Segments(ps);
    forall i | 0 <= i < |segs| ensures '&' !in segs[i] {
      PairHasNoAmpersand(ps[i].0, ps[i].1);
    }
    SplitJoin(segs, '&');
  }

  lemma {:induction false} ParsePairsSegments(ps: Params)
    ensures ParsePairs(Segments(ps)) == Some(ps)
  {
    if ps != [] {
      ParsePairsSegments(ps[1..]);
      var (k, v) := ps[0];
      PairHasNoAmpersand(k, v);
      DecodeEncode(k);
      DecodeEncode(v);
      assert ParsePair(Pair(k, v)) == Some((k, v));
      assert Segments(ps)[1..] == Segments(ps[1..]);
      assert [ps[0]] + ps[1..] == ps;
    }
  }

  /** Parsing a built query string gives the entries back, in order. */
  lemma ParseBuild(ps: Params)
    ensures ParseQueryString(BuildQueryString(ps)) == Some(ps)
  {
    BuildEmpty(ps);
    if ps != [] {
      BuildSplits(ps);
      ParsePairsSegments(ps);
    }
  }
}
