/**
 * Models of the PHP string primitives the core is built from:
 * explode, implode, str_replace, a single preg_replace, trim and
 * Laravel's Str::contains. Strings are sequences of characters.
 */
module StringOps {

  /** p is a prefix of s. */
  predicate IsPrefix(p: string, s: string) {
    |p| <= |s| && s[..|p|] == p
  }

  /** sub occurs somewhere in s (the empty string occurs everywhere). */
  predicate Occurs(s: string, sub: string)
    decreases |s|
  {
    IsPrefix(sub, s) || (s != [] && Occurs(s[1..], sub))
  }

  /** Laravel's Str::contains: an empty needle is never contained. */
  predicate Contains(s: string, sub: string) {
    sub != [] && Occurs(s, sub)
  }

  /** PHP explode(d, s): the pieces between the occurrences of d, scanned left to right. */
  function Split(s: string, d: string): (r: seq<string>)
    requires d != []
    ensures |r| >= 1
    decreases |s|
  {
    if |s| < |d| then [s]
    else if s[..|d|] == d then [[]] + Split(s[|d|..], d)
    else
      var rest := Split(s[1..], d);
      [[s[0]] + rest[0]] + rest[1..]
  }

  /** PHP implode(d, parts): the parts with d between neighbours. */
  function Join(parts: seq<string>, d: string): string
    decreases |parts|
  {
    if |parts| == 0 then []
    else if |parts| == 1 then parts[0]
    else parts[0] + d + Join(parts[1..], d)
  }

  /** PHP str_replace(from, to, s): every non-overlapping occurrence, left to right; an empty search changes nothing. */
  function Replace(s: string, from: string, to: string): string
    decreases |s|
  {
    if from == [] || |s| < |from| then s
    else if s[..|from|] == from then to + Replace(s[|from|..], from, to)
    else [s[0]] + Replace(s[1..], from, to)
  }

  /** preg_replace with a literal pattern and a limit of 1: the first occurrence only. */
  function ReplaceFirst(s: string, from: string, to: string): string
    requires from != []
    decreases |s|
  {
    if |s| < |from| then s
    else if s[..|from|] == from then to + s[|from|..]
    else [s[0]] + ReplaceFirst(s[1..], from, to)
  }

  function Reverse<T>(s: seq<T>): (r: seq<T>)
    ensures |r| == |s|
    ensures forall i :: 0 <= i < |s| ==> r[i] == s[|s| - 1 - i]
  {
    if s == [] then [] else Reverse(s[1..]) + [s[0]]
  }

  /** The characters PHP's trim() strips: space, tab, newline, carriage return, NUL and vertical tab. */
  predicate IsTrimmed(c: char) {
    c == ' ' || c == '\t' || c == '\n' || c == '\r' || c as int == 0 || c as int == 11
  }

  function TrimLeft(s: string): (r: string)
    ensures r == [] || !IsTrimmed(r[0])
    ensures |r| <= |s| && r == s[|s| - |r|..]
    decreases |s|
  {
    if s != [] && IsTrimmed(s[0]) then TrimLeft(s[1..]) else s
  }

  function TrimRight(s: string): (r: string)
    ensures r == [] || !IsTrimmed(r[|r| - 1])
    ensures |r| <= |s| && r == s[..|r|]
    decreases |s|
  {
    if s != [] && IsTrimmed(s[|s| - 1]) then TrimRight(s[..|s| - 1]) else s
  }

  /** PHP trim(s). */
  function Trim(s: string): (r: string)
    ensures r == [] || (!IsTrimmed(r[0]) && !IsTrimmed(r[|r| - 1]))
    ensures |r| <= |s|
  {
    TrimRight(TrimLeft(s))
  }

  // ---------------------------------------------------------------------
  // Laws relating the primitives.

  lemma JoinFirst(parts: seq<string>, d: string)
    requires |parts| >= 1
    ensures IsPrefix(parts[0], Join(parts, d))
  {
  }

  /** Gluing the pieces of a split back together gives the original text. */
  lemma {:induction false} JoinSplit(s: string, d: string)
    requires d != []
    ensures Join(Split(s, d), d) == s
    decreases |s|
  {
    if |s| < |d| {
    } else if s[..|d|] == d {
      var tail := Split(s[|d|..], d);
      var parts := [[]] + tail;
      calc {
        Join(Split(s, d), d);
      == { assert Split(s, d) == parts; assert parts[1..] == tail; }
        [] + d + Join(tail, d);
      == { JoinSplit(s[|d|..], d); }
        d + s[|d|..];
      == { assert s == s[..|d|] + s[|d|..]; }
        s;
      }
    } else {
      var rest := Split(s[1..], d);
      calc {
        Join(Split(s, d), d);
      == { assert Split(s, d) == [[s[0]] + rest[0]] + rest[1..]; }
        Join([[s[0]] + rest[0]] + rest[1..], d);
      == { JoinConsChar(s[0], rest, d); }
        [s[0]] + Join(rest, d);
      == { JoinSplit(s[1..], d); }
        [s[0]] + s[1..];
      == { assert [s[0]] + s[1..] == s; }
        s;
      }
    }
  }

  /** The last part is joined on after all the others. */
  lemma {:induction false} JoinSnoc(parts: seq<string>, d: string)
    requires |parts| >= 2
    ensures Join(parts, d) == Join(parts[..|parts| - 1], d) + d + parts[|parts| - 1]
    decreases |parts|
  {
    var init := parts[..|parts| - 1];
    if |parts| == 2 {
      assert init == [parts[0]];
    } else {
      JoinSnoc(parts[1..], d);
      assert parts[1..][..|parts| - 2] == init[1..];
      assert init[0] == parts[0];
      calc {
        Join(parts, d);
        parts[0] + d + Join(parts[1..], d);
        parts[0] + d + (Join(init[1..], d) + d + parts[|parts| - 1]);
        (parts[0] + d + Join(init[1..], d)) + d + parts[|parts| - 1];
        Join(init, d) + d + parts[|parts| - 1];
      }
    }
  }

  /** Moving one character onto the front of the first part moves it onto the front of the join. */
  lemma JoinConsChar(c: char, parts: seq<string>, d: string)
    requires |parts| >= 1
    ensures Join([[c] + parts[0]] + parts[1..], d) == [c] + Join(parts, d)
  {
    var q := [[c] + parts[0]] + parts[1..];
    assert q[1..] == parts[1..];
  }

  /** str_replace is explode followed by implode with the replacement. */
  lemma {:induction false} ReplaceIsJoinOfSplit(s: string, from: string, to: string)
    requires from != []
    ensures Replace(s, from, to) == Join(Split(s, from), to)
    decreases |s|
  {
    if |s| < |from| {
    } else if s[..|from|] == from {
      ReplaceIsJoinOfSplit(s[|from|..], from, to);
    } else {
      ReplaceIsJoinOfSplit(s[1..], from, to);
      JoinConsChar(s[0], Split(s[1..], from), to);
    }
  }

  /** A text split on a delimiter that does not occur in it is a single piece. */
  lemma {:induction false} SplitWithoutDelimiter(s: string, d: string)
    requires d != [] && !Occurs(s, d)
    ensures Split(s, d) == [s]
    decreases |s|
  {
    if |s| < |d| {
    } else {
      assert !IsPrefix(d, s);
      SplitWithoutDelimiter(s[1..], d);
      assert [s[0]] + s[1..] == s;
    }
  }

  /** No piece of a split contains the delimiter. */
  lemma {:induction false} SplitPiecesAvoidDelimiter(s: string, d: string)
    requires d != []
    ensures forall p :: p in Split(s, d) ==> !Occurs(p, d)
    decreases |s|
  {
    if |s| < |d| {
      ShortTextAvoids(s, d);
    } else if s[..|d|] == d {
      SplitPiecesAvoidDelimiter(s[|d|..], d);
      assert !Occurs([], d);
    } else {
      var rest := Split(s[1..], d);
      SplitPiecesAvoidDelimiter(s[1..], d);
      SplitFirstIsPrefix(s[1..], d);
      var head := [s[0]] + rest[0];
      assert head[1..] == rest[0];
      assert !IsPrefix(d, head);
      assert !Occurs(head, d);
      var r := [head] + rest[1..];
      forall p | p in r ensures !Occurs(p, d) {
        if p != head { assert p in rest; }
      }
    }
  }

  lemma {:induction false} ShortTextAvoids(s: string, d: string)
    requires |s| < |d|
    ensures !Occurs(s, d)
    decreases |s|
  {
    if s != [] { ShortTextAvoids(s[1..], d); }
  }

  /** The first piece of a split is a prefix of the text. */
  lemma {:induction false} SplitFirstIsPrefix(s: string, d: string)
    requires d != []
    ensures IsPrefix(Split(s, d)[0], s)
    decreases |s|
  {
    if |s| < |d| {
    } else if s[..|d|] == d {
    } else {
      SplitFirstIsPrefix(s[1..], d);
    }
  }

  /** preg_replace(..., 1) keeps the text before the first occurrence, the replacement, and everything after. */
  lemma {:induction false} ReplaceFirstSplits(s: string, from: string, to: string)
    requires from != []
    ensures ReplaceFirst(s, from, to) == SpliceFirst(Split(s, from), from, to)
    decreases |s|
  {
    if |s| < |from| {
    } else if s[..|from|] == from {
      ReplaceFirstAtStart(s, from, to);
    } else {
      ReplaceFirstSplits(s[1..], from, to);
      ReplaceFirstPastStart(s, from, to);
    }
  }

  /** The right-hand side of ReplaceFirstSplits: the first gap between pieces gets the replacement. */
  function SpliceFirst(parts: seq<string>, from: string, to: string): string
    requires |parts| >= 1
  {
    if |parts| == 1 then parts[0] else parts[0] + to + Join(parts[1..], from)
  }

  lemma ReplaceFirstAtStart(s: string, from: string, to: string)
    requires from != [] && |s| >= |from| && s[..|from|] == from
    ensures ReplaceFirst(s, from, to) == SpliceFirst(Split(s, from), from, to)
  {
    var parts := Split(s, from);
    var tail := Split(s[|from|..], from);
    assert parts == [[]] + tail;
    assert parts[1..] == tail;
    JoinSplit(s[|from|..], from);
  }

  lemma ReplaceFirstPastStart(s: string, from: string, to: string)
    requires from != [] && |s| >= |from| && s[..|from|] != from
    requires ReplaceFirst(s[1..], from, to) == SpliceFirst(Split(s[1..], from), from, to)
    ensures ReplaceFirst(s, from, to) == SpliceFirst(Split(s, from), from, to)
  {
    var rest := Split(s[1..], from);
    assert Split(s, from) == [[s[0]] + rest[0]] + rest[1..];
    assert ReplaceFirst(s, from, to) == [s[0]] + ReplaceFirst(s[1..], from, to);
    SpliceFirstCons(s[0], rest, from, to);
  }

  /** Moving one character onto the front of the first part moves it onto the front of the splice. */
  lemma SpliceFirstCons(c: char, parts: seq<string>, from: string, to: string)
    requires |parts| >= 1
    ensures SpliceFirst([[c] + parts[0]] + parts[1..], from, to) == [c] + SpliceFirst(parts, from, to)
  {
    var q := [[c] + parts[0]] + parts[1..];
    assert q[0] == [c] + parts[0];
    assert q[1..] == parts[1..];
    if |parts| > 1 {
      assert ([c] + parts[0]) + to + Join(parts[1..], from) == [c] + (parts[0] + to + Join(parts[1..], from));
    }
  }

  /** A delimiter occurs in a text exactly when splitting on it yields more than one piece. */
  lemma OccursIffSplits(s: string, d: string)
    requires d != []
    ensures Occurs(s, d) <==> |Split(s, d)| > 1
  {
    if Occurs(s, d) {
      OccursSplits(s, d);
    } else {
      SplitWithoutDelimiter(s, d);
    }
  }

  lemma {:induction false} OccursSplits(s: string, d: string)
    requires d != [] && Occurs(s, d)
    ensures |Split(s, d)| > 1
    decreases |s|
  {
    if |s| < |d| {
      ShortTextAvoids(s, d);
    } else if s[..|d|] == d {
    } else {
      assert !IsPrefix(d, s);
      OccursSplits(s[1..], d);
    }
  }

  lemma {:induction false} NotOccursChar(p: string, c: char)
    requires !Occurs(p, [c])
    ensures c !in p
    decreases |p|
  {
    if p != [] {
      assert p[..1] == [p[0]];
      NotOccursChar(p[1..], c);
      assert p == [p[0]] + p[1..];
    }
  }
  /** Replace skips a prefix in which no occurrence of the search string starts. */
  lemma {:induction false} ReplaceSkipsPrefix(x: string, y: string, from: string, to: string)
    requires from != []
    requires forall i {:trigger IsPrefix(from, (x + y)[i..])} :: 0 <= i < |x| ==> !IsPrefix(from, (x + y)[i..])
    ensures Replace(x + y, from, to) == x + Replace(y, from, to)
    decreases |x|
  {
    if x != [] {
      NoPrefixShift(x, y, from);
      var r := Replace(y, from, to);
      calc {
        Replace(x + y, from, to);
      == { ReplaceStep(x + y, from, to); }
        [x[0]] + Replace((x + y)[1..], from, to);
      == { assert (x + y)[1..] == x[1..] + y; }
        [x[0]] + Replace(x[1..] + y, from, to);
      == { ReplaceSkipsPrefix(x[1..], y, from, to); }
        [x[0]] + (x[1..] + r);
      == { assert [x[0]] + x[1..] == x; }
        x + r;
      }
    } else {
      assert x + y == y;
    }
  }

  lemma NoPrefixShift(x: string, y: string, from: string)
    requires x != []
    requires forall i {:trigger IsPrefix(from, (x + y)[i..])} :: 0 <= i < |x| ==> !IsPrefix(from, (x + y)[i..])
    ensures !IsPrefix(from, x + y)
    ensures forall i :: 0 <= i < |x[1..]| ==> !IsPrefix(from, (x[1..] + y)[i..])
  {
    assert (x + y)[0..] == x + y;
    forall i | 0 <= i < |x[1..]| ensures !IsPrefix(from, (x[1..] + y)[i..]) {
      assert (x[1..] + y)[i..] == (x + y)[i + 1..];
    }
  }

  /** Where the search string does not start the text, str_replace keeps its first character. */
  lemma ReplaceStep(s: string, from: string, to: string)
    requires from != [] && s != [] && !IsPrefix(from, s)
    ensures Replace(s, from, to) == [s[0]] + Replace(s[1..], from, to)
  {
    if |s| < |from| {
      assert Replace(s[1..], from, to) == s[1..];
      assert [s[0]] + s[1..] == s;
    }
  }

  /** Replace leaves a text alone when the search string does not occur in it. */
  lemma {:induction false} ReplaceAbsent(s: string, from: string, to: string)
    requires !Occurs(s, from)
    ensures Replace(s, from, to) == s
    decreases |s|
  {
    if from != [] && |s| >= |from| {
      ReplaceAbsent(s[1..], from, to);
      assert s == [s[0]] + s[1..];
    }
  }
  /** A search string holding a character the text lacks does not occur in it. */
  lemma {:induction false} MissingCharNotOccurs(s: string, sub: string, c: char)
    requires c in sub && c !in s
    ensures !Occurs(s, sub)
    decreases |s|
  {
    if s != [] {
      MissingCharNotOccurs(s[1..], sub, c);
    }
  }

  /** Splitting on a one-character delimiter distributes over a text that has it in the middle. */
  lemma {:induction false} SplitAroundChar(x: string, c: char, y: string)
    ensures Split(x + [c] + y, [c]) == Split(x, [c]) + Split(y, [c])
    decreases |x|
  {
    var d := [c];
    var s := x + d + y;
    if x == [] {
      assert s[..1] == d && s[1..] == y;
    } else {
      var q, r := Split(x[1..], d), Split(y, d);
      assert s[1..] == x[1..] + d + y;
      if x[0] == c {
        calc {
          Split(s, d);
        == { assert s[..1] == d; }
          [[]] + Split(s[1..], d);
        == { SplitAroundChar(x[1..], c, y); }
          [[]] + (q + r);
        == { assert x[..1] == d; assert Split(x, d) == [[]] + q; }
          Split(x, d) + r;
        }
      } else {
        calc {
          Split(s, d);
        == { assert s[0] == x[0] && s[..1] == [x[0]]; }
          [[x[0]] + Split(s[1..], d)[0]] + Split(s[1..], d)[1..];
        == { SplitAroundChar(x[1..], c, y); }
          [[x[0]] + (q + r)[0]] + (q + r)[1..];
        == { ConsFirstAppend([x[0]], q, r); }
          ([[x[0]] + q[0]] + q[1..]) + r;
        == { assert x[..1] == [x[0]]; }
          Split(x, d) + r;
        }
      }
    }
  }

  lemma ConsFirstAppend(a: string, q: seq<string>, r: seq<string>)
    requires |q| >= 1
    ensures [a + (q + r)[0]] + (q + r)[1..] == ([a + q[0]] + q[1..]) + r
  {
    assert (q + r)[0] == q[0];
    assert (q + r)[1..] == q[1..] + r;
  }

  /** A text without the character is a single piece when split on it. */
  lemma SplitWithoutChar(x: string, c: char)
    requires c !in x
    ensures Split(x, [c]) == [x]
  {
    MissingCharNotOccurs(x, [c], c);
    SplitWithoutDelimiter(x, [c]);
  }

  /** A text without the character extends the first piece of whatever follows it. */
  lemma {:induction false} SplitFirstExtends(x: string, c: char, y: string)
    requires c !in x
    ensures Split(x + y, [c])[0] == x + Split(y, [c])[0]
    decreases |x|
  {
    if x != [] {
      var s := x + y;
      assert s[..1] == [x[0]] && s[..1] != [c] && s[1..] == x[1..] + y;
      SplitFirstExtends(x[1..], c, y);
      assert Split(s, [c])[0] == [x[0]] + Split(s[1..], [c])[0];
      assert x == [x[0]] + x[1..];
    } else {
      assert x + y == y;
    }
  }

  /** Removing a character that occurs only as the last one leaves the rest. */
  lemma DropFinalChar(x: string, c: char)
    requires c !in x
    ensures Replace(x + [c], [c], []) == x
  {
    forall i | 0 <= i < |x| ensures !IsPrefix([c], (x + [c])[i..]) {
      assert (x + [c])[i..][0] == x[i];
    }
    ReplaceSkipsPrefix(x, [c], [c], []);
    assert [c][..1] == [c] && [c][1..] == [];
  }

  /** A one-character string occurs exactly when the character is in the text. */
  lemma OccursChar(s: string, c: char)
    ensures Occurs(s, [c]) <==> c in s
  {
    if c in s {
      if !Occurs(s, [c]) {
        NotOccursChar(s, c);
      }
    } else {
      MissingCharNotOccurs(s, [c], c);
    }
  }

  /** A leading space makes no difference to trim. */
  lemma TrimLeadingSpace(s: string)
    ensures Trim(" " + s) == Trim(s)
  {
    assert (" " + s)[1..] == s;
  }

  /** A text that neither starts nor ends with a trimmed character is its own trim. */
  lemma TrimUntouched(s: string)
    requires s != [] && !IsTrimmed(s[0]) && !IsTrimmed(s[|s| - 1])
    ensures Trim(s) == s
  {
  }

  /** A text with exactly one occurrence of a character splits into the two sides. */
  lemma SplitOnce(x: string, c: char, y: string)
    requires c !in x && c !in y
    ensures Split(x + [c] + y, [c]) == [x, y]
  {
    SplitAroundChar(x, c, y);
    SplitWithoutChar(x, c);
    SplitWithoutChar(y, c);
  }

  /** The first piece is the text up to the first occurrence of the character. */
  lemma SplitFirstPiece(x: string, c: char, y: string)
    requires c !in x
    ensures Split(x + [c] + y, [c])[0] == x
  {
    SplitAroundChar(x, c, y);
    SplitWithoutChar(x, c);
  }

  /** The last piece is the text after the last occurrence of the character. */
  lemma SplitLastPiece(x: string, c: char, y: string)
    requires c !in y
    ensures var parts := Split(x + [c] + y, [c]); parts[|parts| - 1] == y
  {
    SplitAroundChar(x, c, y);
    SplitWithoutChar(y, c);
  }

  /** A character missing from the text is missing from every piece of a split. */
  lemma {:induction false} SplitPiecesWithin(s: string, d: string, c: char)
    requires d != [] && c !in s
    ensures forall p :: p in Split(s, d) ==> c !in p
    decreases |s|
  {
    if |s| < |d| {
    } else if s[..|d|] == d {
      SplitPiecesWithin(s[|d|..], d, c);
    } else {
      SplitPiecesWithin(s[1..], d, c);
      var rest := Split(s[1..], d);
      assert rest[0] in rest;
      forall p | p in Split(s, d) ensures c !in p {
        if p != [s[0]] + rest[0] {
          assert p in rest[1..];
        }
      }
    }
  }
}
