/**
 * The string helpers of the general debug header: splitting on a separator
 * character, substring containment and the "ignore" keyword filter that
 * decides whether a debug line is printed.
 */
module DebugGeneral {
  import opened Strings

  /**
   * The pieces of s between separators, built as the scan meets each
   * character: a separator starts a new, empty piece; any other character
   * extends the last piece. Always at least one piece.
   */
  function Pieces(s: string, sep: char): (r: seq<string>)
    ensures |r| >= 1
    decreases |s|
  {
    if |s| == 0 then [""]
    else
      var init := Pieces(s[..|s| - 1], sep);
      var c := s[|s| - 1];
      if c == sep then init + [""]
      else init[..|init| - 1] + [init[|init| - 1] + [c]]
  }

  /** split_string's result: no pieces for the empty string. */
  function Split(s: string, sep: char): seq<string>
  {
    if |s| == 0 then [] else Pieces(s, sep)
  }

  /**
   * split_string: scans indices 0..|s| (the terminating zero at |s| ends the
   * last piece), pushing s[start..i] at each separator.
   */
  method SplitString(s: string, sep: char) returns (strings: seq<string>)
    ensures strings == Split(s, sep)
  {
    if |s| == 0 {
      return [];
    }
    strings := [];
    var start := 0;
    var i := 0;
    while i < |s|
      invariant 0 <= start <= i <= |s|
      invariant strings + [s[start..i]] == Pieces(s[..i], sep)
    {
      SplitStep(s, sep, strings, start, i);
      if s[i] == sep {
        strings := strings + [s[start..i]];
        start := i + 1;
      }
      i := i + 1;
    }
    strings := strings + [s[start..]];
    assert s[..|s|] == s;
  }

  /** The scan's invariant survives one more character, in both branches. */
  lemma SplitStep(s: string, sep: char, strings: seq<string>, start: nat, i: nat)
    requires start <= i < |s| && strings + [s[start..i]] == Pieces(s[..i], sep)
    ensures s[i] == sep ==> strings + [s[start..i]] + [s[i + 1..i + 1]] == Pieces(s[..i + 1], sep)
    ensures s[i] != sep ==> strings + [s[start..i + 1]] == Pieces(s[..i + 1], sep)
  {
    PiecesExtend(s, i, sep);
    var init := Pieces(s[..i], sep);
    if s[i] == sep {
      assert s[i + 1..i + 1] == "";
    } else {
      LastPieceGrows(strings, s[start..i], init, s[i]);
      assert s[start..i + 1] == s[start..i] + [s[i]];
    }
  }

  lemma LastPieceGrows(strings: seq<string>, last: string, init: seq<string>, c: char)
    requires init == strings + [last]
    ensures init[..|init| - 1] + [init[|init| - 1] + [c]] == strings + [last + [c]]
  {
    assert init[..|init| - 1] == strings;
  }

  /** Scanning one more character of s. */
  lemma PiecesExtend(s: string, i: nat, sep: char)
    requires i < |s|
    ensures var init := Pieces(s[..i], sep);
      Pieces(s[..i + 1], sep) == if s[i] == sep then init + [""]
        else init[..|init| - 1] + [init[|init| - 1] + [s[i]]]
  {
    assert s[..i + 1][..i] == s[..i] && s[..i + 1][i] == s[i];
  }

  /** Joins pieces with the separator between neighbours. */
  function Join(pieces: seq<string>, sep: char): string
    requires |pieces| >= 1
  {
    if |pieces| == 1 then pieces[0]
    else Join(pieces[..|pieces| - 1], sep) + [sep] + pieces[|pieces| - 1]
  }

  /** There is one piece per separator plus one. */
  lemma {:induction false} PiecesCount(s: string, sep: char)
    ensures |Pieces(s, sep)| == multiset(s)[sep] + 1
    decreases |s|
  {
    if |s| > 0 {
      PiecesCount(s[..|s| - 1], sep);
      assert s == s[..|s| - 1] + [s[|s| - 1]];
    }
  }

  /** The split of a non-empty string has one piece more than it has separators. */
  lemma SplitCount(s: string, sep: char)
    ensures |s| == 0 ==> Split(s, sep) == []
    ensures |s| > 0 ==> |Split(s, sep)| == multiset(s)[sep] + 1
  {
    PiecesCount(s, sep);
  }

  /** Extending the last piece by one character extends the join by it. */
  lemma JoinExtendLast(pieces: seq<string>, c: char, sep: char)
    requires |pieces| >= 1
    ensures Join(pieces[..|pieces| - 1] + [pieces[|pieces| - 1] + [c]], sep) == Join(pieces, sep) + [c]
  {
    var last := pieces[|pieces| - 1];
    var ps := pieces[..|pieces| - 1] + [last + [c]];
    if |pieces| > 1 {
      assert ps[..|ps| - 1] == pieces[..|pieces| - 1];
      var front := Join(pieces[..|pieces| - 1], sep);
      assert front + [sep] + (last + [c]) == front + [sep] + last + [c];
    }
  }

  /** Joining the pieces with the separator gives back the string. */
  lemma {:induction false} JoinPieces(s: string, sep: char)
    ensures Join(Pieces(s, sep), sep) == s
    decreases |s|
  {
    if |s| > 0 {
      var p, c := s[..|s| - 1], s[|s| - 1];
      var init := Pieces(p, sep);
      JoinPieces(p, sep);
      assert s == p + [c];
      if c == sep {
        assert Join(init + [""], sep) == Join(init, sep) + [sep];
      } else {
        JoinExtendLast(init, c, sep);
      }
    }
  }

  /** No piece contains the separator. */
  lemma {:induction false} PiecesHaveNoSeparator(s: string, sep: char)
    ensures forall i :: 0 <= i < |Pieces(s, sep)| ==> sep !in Pieces(s, sep)[i]
    decreases |s|
  {
    if |s| > 0 {
      PiecesHaveNoSeparator(s[..|s| - 1], sep);
    }
  }

  /** string_contains: find does not return npos. */
  function StringContains(s: string, sub: string): (r: bool)
    ensures r <==> exists k :: OccursAt(s, sub, k)
  {
    Find(s, sub).Some?
  }

  /** A keyword match_ignore skips. */
  predicate IsSkipped(keyword: string)
  {
    keyword == "" || keyword == " "
  }

  /** A keyword starting with '!' rejects what it matches. */
  predicate IsRejecting(keyword: string)
  {
    |keyword| > 0 && keyword[0] == '!'
  }

  /** The text a keyword looks for: without its leading '!'. */
  function Pattern(keyword: string): string
  {
    if IsRejecting(keyword) then keyword[1..] else keyword
  }

  /** A keyword that is not skipped and whose pattern occurs in s. */
  predicate Hits(s: string, keyword: string)
  {
    !IsSkipped(keyword) && StringContains(s, Pattern(keyword))
  }

  /** Which keywords hit s. */
  function HitFlags(s: string, keywords: seq<string>): (r: seq<bool>)
    ensures |r| == |keywords| && forall j :: 0 <= j < |keywords| ==> r[j] == Hits(s, keywords[j])
  {
    seq(|keywords|, j requires 0 <= j < |keywords| => Hits(s, keywords[j]))
  }

  /** Which keywords are plain (not '!'). */
  function PlainFlags(keywords: seq<string>): (r: seq<bool>)
    ensures |r| == |keywords| && forall j :: 0 <= j < |keywords| ==> r[j] == !IsRejecting(keywords[j])
  {
    seq(|keywords|, j requires 0 <= j < |keywords| => !IsRejecting(keywords[j]))
  }

  /** Position k is a plain hit and no later position before n is a hit. */
  ghost predicate DecidingHit(hits: seq<bool>, plain: seq<bool>, k: int, n: nat)
    requires n <= |hits| == |plain|
  {
    0 <= k < n && hits[k] && plain[k] && forall j :: k < j < n ==> !hits[j]
  }

  /** The last hit among the first n positions is a plain keyword. */
  ghost predicate LastHitPlain(hits: seq<bool>, plain: seq<bool>, n: nat)
    requires n <= |hits| == |plain|
  {
    exists k :: DecidingHit(hits, plain, k, n)
  }

  /** The last hitting keyword among the first n is a plain one. */
  ghost predicate LastHitIsPlain(s: string, keywords: seq<string>, n: nat)
    requires n <= |keywords|
  {
    LastHitPlain(HitFlags(s, keywords), PlainFlags(keywords), n)
  }

  /**
   * match_ignore: each hitting keyword overwrites the answer (true for a
   * plain keyword, false for a '!' one), so the last hit decides; false when
   * nothing hits.
   */
  method MatchIgnore(s: string, keywords: seq<string>) returns (r: bool)
    ensures r <==> LastHitIsPlain(s, keywords, |keywords|)
  {
    ghost var hits, plain := HitFlags(s, keywords), PlainFlags(keywords);
    r := false;
    var i := 0;
    while i < |keywords|
      invariant 0 <= i <= |keywords|
      invariant r <==> LastHitPlain(hits, plain, i)
    {
      var keyword := keywords[i];
      assert hits[i] == Hits(s, keyword) && plain[i] == !IsRejecting(keyword);
      if !IsSkipped(keyword) {
        if keyword[0] == '!' {
          if StringContains(s, keyword[1..]) {
            r := false;
          }
        } else if StringContains(s, keyword) {
          r := true;
        }
      }
      LastHitStep(hits, plain, i);
      i := i + 1;
    }
  }

  /** Extending the scan by one position: a hit decides, a miss keeps the answer. */
  lemma LastHitStep(hits: seq<bool>, plain: seq<bool>, i: nat)
    requires i < |hits| == |plain|
    ensures LastHitPlain(hits, plain, i + 1) <==>
      if hits[i] then plain[i] else LastHitPlain(hits, plain, i)
  {
    if hits[i] {
      if LastHitPlain(hits, plain, i + 1) {
        var k :| DecidingHit(hits, plain, k, i + 1);
        assert k == i;
      }
      if plain[i] {
        assert DecidingHit(hits, plain, i, i + 1);
      }
    } else {
      if LastHitPlain(hits, plain, i) {
        var k :| DecidingHit(hits, plain, k, i);
        assert DecidingHit(hits, plain, k, i + 1);
      }
      if LastHitPlain(hits, plain, i + 1) {
        var k :| DecidingHit(hits, plain, k, i + 1);
        assert DecidingHit(hits, plain, k, i);
      }
    }
  }

  /**
   * IfRelevant: the guarded code runs exactly when match_ignore is false for
   * the line information.
   */
  method IfRelevant(lineInfo: string, keywords: seq<string>) returns (runBody: bool)
    ensures runBody <==> !LastHitIsPlain(lineInfo, keywords, |keywords|)
  {
    var ignored := MatchIgnore(lineInfo, keywords);
    runBody := !ignored;
  }
}
