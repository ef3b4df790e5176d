/**
 * The JavaScript string built-ins the reader relies on, over `seq<char>`:
 * `trim`, `split` with a string separator, the global `\r\n` replacement,
 * `startsWith` and `endsWith`.
 */
module JsString {
  import opened Seqs

  /**
   * The ECMAScript WhiteSpace and LineTerminator code points, which
   * `String.prototype.trim` (and `parseInt`'s leading-space skip) removes:
   * tab, vertical tab, form feed, space, no-break space, the byte order mark,
   * the other space separators (category Zs), line feed, carriage return,
   * line separator and paragraph separator.
   */
  predicate IsWhitespace(c: char)
  {
    if c <= ' ' then c == ' ' || '\t' <= c <= '\r'
    else
      '\U{A0}' <= c &&
      (c == '\U{A0}' || c == '\U{1680}' || '\U{2000}' <= c <= '\U{200A}' ||
       c == '\U{2028}' || c == '\U{2029}' || c == '\U{202F}' || c == '\U{205F}' ||
       c == '\U{3000}' || c == '\U{FEFF}')
  }

  /** Every character of `s` is whitespace (so `s.trim()` is empty). */
  predicate Blank(s: string)
  {
    forall i :: 0 <= i < |s| ==> IsWhitespace(s[i])
  }

  /** The length of the longest whitespace prefix of `s`. */
  function LeadingWhitespace(s: string): (n: nat)
    ensures n <= |s|
    ensures Blank(s[..n])
    ensures n < |s| ==> !IsWhitespace(s[n])
    decreases |s|
  {
    if s == [] || !IsWhitespace(s[0]) then 0
    else
      var n := 1 + LeadingWhitespace(s[1..]);
      assert forall i :: 1 <= i < n ==> s[..n][i] == s[1..][..n - 1][i - 1];
      n
  }

  /** The length of the longest whitespace suffix of `s`. */
  function TrailingWhitespace(s: string): (n: nat)
    ensures n <= |s|
    ensures Blank(s[|s| - n..])
    ensures n < |s| ==> !IsWhitespace(s[|s| - 1 - n])
    decreases |s|
  {
    if s == [] || !IsWhitespace(s[|s| - 1]) then 0
    else
      var init := s[..|s| - 1];
      var n := 1 + TrailingWhitespace(init);
      assert s[|s| - n..] == init[|init| - (n - 1)..] + [s[|s| - 1]];
      n
  }

  /** `String.prototype.trim`: `s` without its leading and trailing whitespace. */
  function Trim(s: string): string
  {
    var k := LeadingWhitespace(s);
    s[k..|s| - TrailingWhitespace(s[k..])]
  }

  /**
   * What `trim` leaves is the slice of `s` that starts after the whitespace
   * prefix and leaves a blank suffix behind; it is empty exactly when `s` is
   * blank, and otherwise it starts and ends with a character that is not
   * whitespace.
   */
  lemma {:induction false} TrimSpec(s: string)
    ensures |Trim(s)| <= |s|
    ensures var k, r := LeadingWhitespace(s), Trim(s);
      k + |r| <= |s| && s[k..k + |r|] == r && Blank(s[k + |r|..])
    ensures Trim(s) == [] <==> Blank(s)
    ensures var r := Trim(s); r != [] ==> !IsWhitespace(r[0]) && !IsWhitespace(r[|r| - 1])
  {
    var k := LeadingWhitespace(s);
    var m := TrailingWhitespace(s[k..]);
    TrimLeavesBlankSuffix(s, k, m);
    TrimEmptyIffBlank(s, k, m);
    TrimEnds(s, k, m);
  }

  lemma {:induction false} TrimLeavesBlankSuffix(s: string, k: nat, m: nat)
    requires k == LeadingWhitespace(s) && m == TrailingWhitespace(s[k..])
    ensures k + m <= |s| && Blank(s[|s| - m..])
  {
    SuffixOfSuffix(s, k, m);
  }

  lemma {:induction false} SuffixOfSuffix(s: string, k: nat, m: nat)
    requires k + m <= |s|
    ensures s[|s| - m..] == s[k..][|s| - k - m..]
  {
  }

  lemma {:induction false} TrimEmptyIffBlank(s: string, k: nat, m: nat)
    requires k == LeadingWhitespace(s) && m == TrailingWhitespace(s[k..])
    ensures k + m <= |s| && (k + m == |s| <==> Blank(s))
  {
    var t := s[k..];
    assert t[|t| - |t|..] == t;
    assert |t| > 0 ==> t[0] == s[k];
    assert k == |s| ==> s[..k] == s;
  }

  lemma {:induction false} TrimEnds(s: string, k: nat, m: nat)
    requires k == LeadingWhitespace(s) && m == TrailingWhitespace(s[k..])
    ensures k + m < |s| ==> !IsWhitespace(s[k]) && !IsWhitespace(s[|s| - 1 - m])
  {
    var t := s[k..];
    assert |t| > m ==> t[|t| - 1 - m] == s[|s| - 1 - m];
  }

  /** Trimming removes at least the blank tail of `s`. */
  lemma {:induction false} TrimDropsBlankTail(s: string, n: nat)
    requires n <= |s| && Blank(s[|s| - n..])
    ensures |Trim(s)| <= |s| - n
  {
    TrimSpec(s);
    BlankSuffixAt(s, n);
    var r := Trim(s);
    var k := LeadingWhitespace(s);
    assert r != [] ==> s[k + |r| - 1] == r[|r| - 1];
  }

  /** A blank suffix of length `n` is whitespace at each of the last `n` indexes. */
  lemma {:induction false} BlankSuffixAt(s: string, n: nat)
    requires n <= |s| && Blank(s[|s| - n..])
    ensures forall j :: |s| - n <= j < |s| ==> IsWhitespace(s[j])
  {
    forall j | |s| - n <= j < |s|
      ensures IsWhitespace(s[j])
    {
      assert s[j] == s[|s| - n..][j - (|s| - n)];
    }
  }

  /** `s` begins with `prefix` (`String.prototype.startsWith`). */
  predicate StartsWith(s: string, prefix: string)
  {
    |prefix| <= |s| && s[..|prefix|] == prefix
  }

  /** A string that starts with `prefix` has its first two characters, and is at least as long. */
  lemma {:induction false} StartsWithHead(s: string, prefix: string)
    requires |prefix| >= 2
    ensures StartsWith(s, prefix) ==> |s| >= |prefix| && s[0] == prefix[0] && s[1] == prefix[1]
  {
    if StartsWith(s, prefix) {
      assert s[..|prefix|][0] == s[0] && s[..|prefix|][1] == s[1];
    }
  }

  /** `s` ends with `suffix` (`String.prototype.endsWith`). */
  predicate EndsWith(s: string, suffix: string)
  {
    |suffix| <= |s| && s[|s| - |suffix|..] == suffix
  }

  /** `t` occurs somewhere inside `s`. */
  predicate Contains(s: string, t: string)
    decreases |s|
  {
    StartsWith(s, t) || (s != [] && Contains(s[1..], t))
  }

  lemma {:induction false} ContainsLength(s: string, t: string)
    requires Contains(s, t)
    ensures |t| <= |s|
    decreases |s|
  {
    if !StartsWith(s, t) {
      ContainsLength(s[1..], t);
    }
  }

  /**
   * `s.split(sep)` for a non-empty string separator: the pieces between the
   * occurrences of `sep` found scanning from the left without overlap. There
   * is always at least one piece, and the first piece is a prefix of `s`.
   */
  function Split(s: string, sep: string): (r: seq<string>)
    requires sep != []
    ensures |r| >= 1
    ensures |r[0]| <= |s| && r[0] == s[..|r[0]|]
    decreases |s|
  {
    if |s| < |sep| then [s]
    else if StartsWith(s, sep) then [""] + Split(s[|sep|..], sep)
    else
      var rest := Split(s[1..], sep);
      [[s[0]] + rest[0]] + rest[1..]
  }

  /** `parts.join(sep)`. */
  function Join(parts: seq<string>, sep: string): string
    decreases |parts|
  {
    if |parts| == 0 then ""
    else if |parts| == 1 then parts[0]
    else parts[0] + sep + Join(parts[1..], sep)
  }

  /** Splitting loses nothing: joining the pieces with the separator gives back `s`. */
  lemma {:induction false} SplitJoin(s: string, sep: string)
    requires sep != []
    ensures Join(Split(s, sep), sep) == s
    decreases |s|
  {
    if |s| < |sep| {
    } else if StartsWith(s, sep) {
      SplitJoin(s[|sep|..], sep);
      JoinPrependEmpty(Split(s[|sep|..], sep), sep);
      assert s == sep + s[|sep|..];
    } else {
      SplitJoin(s[1..], sep);
      JoinPrependChar(s[0], Split(s[1..], sep), sep);
      assert s == [s[0]] + s[1..];
    }
  }

  lemma {:induction false} JoinPrependEmpty(parts: seq<string>, sep: string)
    requires parts != []
    ensures Join([""] + parts, sep) == sep + Join(parts, sep)
  {
    assert ([""] + parts)[1..] == parts;
  }

  lemma {:induction false} JoinPrependChar(c: char, parts: seq<string>, sep: string)
    requires parts != []
    ensures Join([[c] + parts[0]] + parts[1..], sep) == [c] + Join(parts, sep)
  {
    var r := [[c] + parts[0]] + parts[1..];
    if |parts| == 1 {
      assert r == [[c] + parts[0]];
    } else {
      assert r[1..] == parts[1..];
    }
  }

  /** No piece of a split contains the separator. */
  lemma {:induction false} SplitPiecesAvoidSeparator(s: string, sep: string)
    requires sep != []
    ensures forall i :: 0 <= i < |Split(s, sep)| ==> !Contains(Split(s, sep)[i], sep)
    decreases |s|
  {
    var r := Split(s, sep);
    if |s| < |sep| {
      if Contains(s, sep) { ContainsLength(s, sep); }
    } else if StartsWith(s, sep) {
      SplitPiecesAvoidSeparator(s[|sep|..], sep);
      assert !Contains("", sep);
      assert forall i :: 1 <= i < |r| ==> r[i] == Split(s[|sep|..], sep)[i - 1];
    } else {
      var rest := Split(s[1..], sep);
      SplitPiecesAvoidSeparator(s[1..], sep);
      var p := [s[0]] + rest[0];
      assert p[1..] == rest[0];
      assert p == s[..|p|];
      assert !StartsWith(p, sep);
      assert forall i :: 1 <= i < |r| ==> r[i] == rest[i];
    }
  }

  /**
   * The matches are taken leftmost first: the separator that closes a piece
   * (every piece but the last) is the first occurrence after the piece
   * starts, so the piece followed by all but the last character of `sep`
   * does not yet contain it.
   */
  lemma {:induction false} SplitLeftmost(s: string, sep: string)
    requires sep != []
    ensures forall i :: 0 <= i < |Split(s, sep)| - 1 ==>
      !Contains(Split(s, sep)[i] + sep[..|sep| - 1], sep)
    decreases |s|
  {
    var r := Split(s, sep);
    var open := sep[..|sep| - 1];
    if |s| < |sep| {
    } else if StartsWith(s, sep) {
      var rest := Split(s[|sep|..], sep);
      SplitLeftmost(s[|sep|..], sep);
      ShorterNotContains(open, sep);
      assert r == [""] + rest;
      forall i | 0 <= i < |r| - 1
        ensures !Contains(r[i] + open, sep)
      {
        if i == 0 {
          assert r[0] + open == open;
        } else {
          assert r[i] == rest[i - 1];
        }
      }
    } else {
      var rest := Split(s[1..], sep);
      SplitLeftmost(s[1..], sep);
      assert r == [[s[0]] + rest[0]] + rest[1..];
      forall i | 0 <= i < |r| - 1
        ensures !Contains(r[i] + open, sep)
      {
        if i == 0 {
          SplitJoin(s[1..], sep);
          SplitFirstPieceLeftmost(s, sep, rest);
        } else {
          assert r[i] == rest[i];
        }
      }
    }
  }

  /** The step of `SplitLeftmost` for a first piece that grew by one character. */
  lemma {:induction false} SplitFirstPieceLeftmost(s: string, sep: string, rest: seq<string>)
    requires sep != [] && |s| >= |sep| && !StartsWith(s, sep)
    requires |rest| >= 2 && Join(rest, sep) == s[1..]
    requires !Contains(rest[0] + sep[..|sep| - 1], sep)
    ensures !Contains([s[0]] + rest[0] + sep[..|sep| - 1], sep)
  {
    var p := [s[0]] + rest[0] + sep[..|sep| - 1];
    assert s[1..] == rest[0] + sep + Join(rest[1..], sep);
    assert s == [s[0]] + rest[0] + sep + Join(rest[1..], sep);
    assert |p| >= |sep|;
    assert p[..|sep|] == s[..|sep|];
    assert p[1..] == rest[0] + sep[..|sep| - 1];
  }

  /** A string shorter than `t` does not contain it. */
  lemma {:induction false} ShorterNotContains(s: string, t: string)
    requires |s| < |t|
    ensures !Contains(s, t)
    decreases |s|
  {
    if s != [] {
      ShorterNotContains(s[1..], t);
    }
  }

  /**
   * `s.replace(/\r\n/g, '\n')`: each `\r\n` found scanning from the left is
   * replaced by `\n`.
   */
  function ReplaceCrlf(s: string): string
    decreases |s|
  {
    if |s| < 2 then s
    else if s[0] == '\r' && s[1] == '\n' then "\n" + ReplaceCrlf(s[2..])
    else [s[0]] + ReplaceCrlf(s[1..])
  }

  /** The replacement never lengthens the text, and a text without `\r\n` is left as it is. */
  lemma {:induction false} ReplaceCrlfSpec(s: string)
    ensures |ReplaceCrlf(s)| <= |s|
    ensures !Contains(s, "\r\n") ==> ReplaceCrlf(s) == s
    decreases |s|
  {
    if |s| < 2 {
    } else if s[0] == '\r' && s[1] == '\n' {
      ReplaceCrlfSpec(s[2..]);
      assert StartsWith(s, "\r\n");
    } else {
      ReplaceCrlfSpec(s[1..]);
      assert s[..2] == [s[0], s[1]];
      assert s == [s[0]] + s[1..];
    }
  }

  /**
   * Each `\r\n` becomes `\n`, and the text on either side of it is
   * replaced on its own: no match straddles the pair.
   */
  lemma {:induction false} ReplaceCrlfAtPair(a: string, b: string)
    ensures ReplaceCrlf(a + "\r\n" + b) == ReplaceCrlf(a) + "\n" + ReplaceCrlf(b)
    decreases |a|
  {
    if a == [] {
      ReplaceCrlfDropsPair(b);
      assert a + "\r\n" + b == "\r\n" + b;
    } else if |a| >= 2 && a[0] == '\r' && a[1] == '\n' {
      ReplaceCrlfAtPair(a[2..], b);
      ReplaceCrlfAtPairAfterPair(a[2..], b);
      assert a == "\r\n" + a[2..];
    } else {
      ReplaceCrlfAtPair(a[1..], b);
      ReplaceCrlfAtPairAfterChar(a[0], a[1..], b);
      assert a == [a[0]] + a[1..];
    }
  }

  /** The step of `ReplaceCrlfAtPair` for an `a` that starts with `\r\n`. */
  lemma {:induction false} ReplaceCrlfAtPairAfterPair(t: string, b: string)
    requires ReplaceCrlf(t + "\r\n" + b) == ReplaceCrlf(t) + "\n" + ReplaceCrlf(b)
    ensures ReplaceCrlf("\r\n" + t + "\r\n" + b) == ReplaceCrlf("\r\n" + t) + "\n" + ReplaceCrlf(b)
  {
    var u := t + "\r\n" + b;
    assert "\r\n" + t + "\r\n" + b == "\r\n" + u;
    ReplaceCrlfDropsPair(t);
    ReplaceCrlfDropsPair(u);
  }

  /** The step of `ReplaceCrlfAtPair` for an `a` that does not start with `\r\n`. */
  lemma {:induction false} ReplaceCrlfAtPairAfterChar(c: char, t: string, b: string)
    requires !(c == '\r' && t != [] && t[0] == '\n')
    requires ReplaceCrlf(t + "\r\n" + b) == ReplaceCrlf(t) + "\n" + ReplaceCrlf(b)
    ensures ReplaceCrlf([c] + t + "\r\n" + b) == ReplaceCrlf([c] + t) + "\n" + ReplaceCrlf(b)
  {
    var u := t + "\r\n" + b;
    assert [c] + t + "\r\n" + b == [c] + u;
    assert u[0] == if t == [] then '\r' else t[0];
    ReplaceCrlfKeepsFirst([c] + u);
    ReplaceCrlfKeepsFirst([c] + t);
    assert ([c] + u)[1..] == u && ([c] + t)[1..] == t;
  }

  /** A leading `\r\n` becomes `\n`. */
  lemma {:induction false} ReplaceCrlfDropsPair(b: string)
    ensures ReplaceCrlf("\r\n" + b) == "\n" + ReplaceCrlf(b)
  {
    assert ("\r\n" + b)[2..] == b;
  }

  /** Where the text does not start with `\r\n`, its first character is kept. */
  lemma {:induction false} ReplaceCrlfKeepsFirst(s: string)
    requires s != [] && !(|s| >= 2 && s[0] == '\r' && s[1] == '\n')
    ensures ReplaceCrlf(s) == [s[0]] + ReplaceCrlf(s[1..])
  {
    if |s| < 2 {
      assert s == [s[0]] && s[1..] == [];
    }
  }

  /** A text holding a `\r\n` gets strictly shorter. */
  lemma {:induction false} ReplaceCrlfShortens(s: string)
    requires Contains(s, "\r\n")
    ensures |ReplaceCrlf(s)| < |s|
    decreases |s|
  {
    if StartsWith(s, "\r\n") {
      ReplaceCrlfSpec(s[2..]);
      ReplaceCrlfDropsPair(s[2..]);
      assert s == "\r\n" + s[2..];
    } else {
      ReplaceCrlfShortens(s[1..]);
      assert s[..2] == [s[0], s[1]];
      ReplaceCrlfKeepsFirst(s);
    }
  }

  /** The replacement only deletes carriage returns: every other character is kept, in order. */
  lemma {:induction false} ReplaceCrlfOnlyDropsCarriageReturns(s: string)
    ensures Filter((c: char) => c != '\r', ReplaceCrlf(s)) == Filter((c: char) => c != '\r', s)
    decreases |s|
  {
    var notCr := (c: char) => c != '\r';
    if |s| < 2 {
    } else if s[0] == '\r' && s[1] == '\n' {
      ReplaceCrlfOnlyDropsCarriageReturns(s[2..]);
      assert s[1..][1..] == s[2..];
      assert ("\n" + ReplaceCrlf(s[2..]))[1..] == ReplaceCrlf(s[2..]);
    } else {
      ReplaceCrlfOnlyDropsCarriageReturns(s[1..]);
      assert ([s[0]] + ReplaceCrlf(s[1..]))[1..] == ReplaceCrlf(s[1..]);
    }
  }
}
