/**
 * The string helpers of app/Support/helpers.php: narrator, nasab,
 * array_to_string, clean_text and the format selection of
 * readable_datetime.
 */
module TextHelpers {
  import opened StringOps

  // ---------------------------------------------------------------------
  // narrator

  /** One piece after a start delimiter: if it holds an end delimiter, mark it up. */
  function RewritePiece(p: string, startReplace: string, endReplace: string, end: string): string {
    if Contains(p, end) then startReplace + ReplaceFirst(p, end, endReplace) else p
  }

  /** The pieces as narrator leaves them: the first untouched, every later one rewritten. */
  function Rewritten(pieces: seq<string>, startReplace: string, endReplace: string, end: string): (r: seq<string>)
    ensures |r| == |pieces|
  {
    seq(|pieces|, i requires 0 <= i < |pieces| =>
      if i == 0 then pieces[0] else RewritePiece(pieces[i], startReplace, endReplace, end))
  }

  /** What narrator returns. */
  function Narrated(text: string, startReplace: string, endReplace: string, start: string, end: string): string
    requires start != []
  {
    Join(Rewritten(Split(text, start), startReplace, endReplace, end), "")
  }

  /**
   * narrator: explode on the start delimiter, then rewrite the pieces from
   * index 1 on in place, then join them with nothing between.
   */
  method Narrator(text: string, startReplace: string, endReplace: string, start: string, end: string)
    returns (r: string)
    requires start != []
    ensures r == Narrated(text, startReplace, endReplace, start, end)
  {
    var texts := Split(text, start);
    ghost var pieces := texts;
    for c := 1 to |texts|
      invariant |texts| == |pieces|
      invariant forall i :: 0 <= i < c ==> texts[i] == Rewritten(pieces, startReplace, endReplace, end)[i]
      invariant forall i :: c <= i < |texts| ==> texts[i] == pieces[i]
    {
      if Contains(texts[c], end) {
        texts := texts[c := startReplace + ReplaceFirst(texts[c], end, endReplace)];
      }
    }
    assert texts == Rewritten(pieces, startReplace, endReplace, end);
    r := Join(texts, "");
  }

  /** Text without a start delimiter comes back unchanged. */
  lemma NarratorPlain(text: string, startReplace: string, endReplace: string, start: string, end: string)
    requires start != [] && !Occurs(text, start)
    ensures Narrated(text, startReplace, endReplace, start, end) == text
  {
    SplitWithoutDelimiter(text, start);
  }

  /**
   * A piece holding the end delimiter gets the start markup in front and
   * only its first end delimiter replaced; a piece without one is kept.
   */
  lemma NarratorPiece(p: string, startReplace: string, endReplace: string, end: string)
    requires end != []
    ensures |Split(p, end)| == 1 ==> RewritePiece(p, startReplace, endReplace, end) == p
    ensures |Split(p, end)| > 1 ==> (RewritePiece(p, startReplace, endReplace, end) ==
      startReplace + Split(p, end)[0] + endReplace + Join(Split(p, end)[1..], end))
  {
    var parts := Split(p, end);
    OccursIffSplits(p, end);
    if |parts| > 1 {
      PieceMarkedUp(p, startReplace, endReplace, end);
    }
  }

  lemma PieceMarkedUp(p: string, startReplace: string, endReplace: string, end: string)
    requires end != [] && |Split(p, end)| > 1 && Contains(p, end)
    ensures RewritePiece(p, startReplace, endReplace, end) ==
      startReplace + Split(p, end)[0] + endReplace + Join(Split(p, end)[1..], end)
  {
    var parts := Split(p, end);
    var rest := Join(parts[1..], end);
    calc {
      RewritePiece(p, startReplace, endReplace, end);
    ==
      startReplace + ReplaceFirst(p, end, endReplace);
    == { ReplaceFirstSplits(p, end, endReplace); }
      startReplace + (parts[0] + endReplace + rest);
    == { assert startReplace + (parts[0] + endReplace + rest) == startReplace + parts[0] + endReplace + rest; }
      startReplace + parts[0] + endReplace + rest;
    }
  }

  lemma {:induction false} ReplaceFirstChars(s: string, from: string, to: string, c: char)
    requires from != [] && c !in s && c !in to
    ensures c !in ReplaceFirst(s, from, to)
    decreases |s|
  {
    if |s| >= |from| {
      if s[..|from|] == from {
        assert c !in s[|from|..];
      } else {
        assert c !in s[1..];
        ReplaceFirstChars(s[1..], from, to, c);
      }
    }
  }

  lemma {:induction false} JoinAvoidsChar(parts: seq<string>, c: char)
    requires forall i :: 0 <= i < |parts| ==> c !in parts[i]
    ensures c !in Join(parts, "")
    decreases |parts|
  {
    if |parts| > 1 {
      JoinAvoidsChar(parts[1..], c);
    }
  }

  /** With a one-character start delimiter absent from both replacements, no delimiter survives. */
  lemma NarratorDropsStart(text: string, startReplace: string, endReplace: string, start: string, end: string)
    requires |start| == 1 && start[0] !in startReplace && start[0] !in endReplace
    ensures start[0] !in Narrated(text, startReplace, endReplace, start, end)
  {
    var c := start[0];
    assert start == [c];
    var pieces := Split(text, start);
    var out := Rewritten(pieces, startReplace, endReplace, end);
    SplitPiecesAvoidDelimiter(text, start);
    forall i | 0 <= i < |out| ensures c !in out[i] {
      assert pieces[i] in pieces;
      NotOccursChar(pieces[i], c);
      if i > 0 && Contains(pieces[i], end) {
        ReplaceFirstChars(pieces[i], end, endReplace, c);
      }
    }
    JoinAvoidsChar(out, c);
  }

  // ---------------------------------------------------------------------
  // nasab

  /** nasab: "binti" becomes "bin", the text is cut at every "bin", and the names are reversed. */
  function Nasab(text: string): (r: seq<string>)
    ensures |r| >= 1
  {
    Reverse(Split(Replace(text, "binti", "bin"), "bin"))
  }

  lemma ReverseReverse<T>(s: seq<T>)
    ensures Reverse(Reverse(s)) == s
  {
  }

  /** Reversing the names back and joining them with "bin" gives the substituted text. */
  lemma NasabRoundTrip(text: string)
    ensures Join(Reverse(Nasab(text)), "bin") == Replace(text, "binti", "bin")
  {
    var parts := Split(Replace(text, "binti", "bin"), "bin");
    ReverseReverse(parts);
    JoinSplit(Replace(text, "binti", "bin"), "bin");
  }

  /** No name in the result contains "bin". */
  lemma NasabNamesAvoidBin(text: string)
    ensures forall p :: p in Nasab(text) ==> !Occurs(p, "bin")
  {
    var parts := Split(Replace(text, "binti", "bin"), "bin");
    SplitPiecesAvoidDelimiter(Replace(text, "binti", "bin"), "bin");
    forall p | p in Nasab(text) ensures !Occurs(p, "bin") {
      var i :| 0 <= i < |parts| && Reverse(parts)[i] == p;
      assert parts[|parts| - 1 - i] in parts;
    }
  }

  // ---------------------------------------------------------------------
  // array_to_string

  /** PHP's last($array) written into a string: false (the empty string) for an empty array. */
  function LastText(xs: seq<string>): string {
    if xs == [] then "" else xs[|xs| - 1]
  }

  /**
   * array_to_string as written: implode with the splitter, then replace
   * every occurrence of splitter + last element by lastSplitter + last.
   */
  function ArrayToString(xs: seq<string>, splitter: string, lastSplitter: string, prefix: string, suffix: string): (r: string)
    ensures IsPrefix(prefix, r) && |r| >= |prefix| + |suffix| && r[|r| - |suffix|..] == suffix
  {
    var last := LastText(xs);
    prefix + Replace(Join(xs, splitter), splitter + last, lastSplitter + last) + suffix
  }

  /**
   * array_to_string as its documentation ("convert list to readable")
   * intends: the splitter between all neighbours except the last pair,
   * which gets lastSplitter.
   */
  function ArrayToStringIntended(xs: seq<string>, splitter: string, lastSplitter: string, prefix: string, suffix: string): (r: string)
    ensures IsPrefix(prefix, r) && |r| >= |prefix| + |suffix| && r[|r| - |suffix|..] == suffix
    ensures |xs| >= 2 ==>
      r == prefix + Join(xs[..|xs| - 1], splitter) + lastSplitter + xs[|xs| - 1] + suffix
  {
    if |xs| < 2 then prefix + Join(xs, splitter) + suffix
    else prefix + Join(xs[..|xs| - 1], splitter) + lastSplitter + xs[|xs| - 1] + suffix
  }

  /**
   * The written and the corrected forms agree whenever splitter + last
   * element starts nowhere before the final splitter of the imploded
   * text (which is the earlier elements imploded, then splitter + last
   * element), so that str_replace has only the final occurrence to
   * replace.
   */
  lemma ArrayToStringAgrees(xs: seq<string>, splitter: string, lastSplitter: string, prefix: string, suffix: string)
    requires |xs| >= 2 && splitter != []
    requires var head, from := Join(xs[..|xs| - 1], splitter), splitter + xs[|xs| - 1];
      forall i :: 0 <= i < |head| ==> !IsPrefix(from, (head + from)[i..])
    ensures ArrayToString(xs, splitter, lastSplitter, prefix, suffix) ==
      ArrayToStringIntended(xs, splitter, lastSplitter, prefix, suffix)
  {
    var head, last := Join(xs[..|xs| - 1], splitter), xs[|xs| - 1];
    var from, to := splitter + last, lastSplitter + last;
    JoinSnoc(xs, splitter);
    assert Join(xs, splitter) == head + from;
    ReplaceSkipsPrefix(head, from, from, to);
    assert from[..|from|] == from && from[|from|..] == [];
    assert Replace(from, from, to) == to + Replace([], from, to);
    calc {
      ArrayToString(xs, splitter, lastSplitter, prefix, suffix);
      prefix + Replace(head + from, from, to) + suffix;
      prefix + (head + to) + suffix;
      prefix + head + lastSplitter + last + suffix;
    }
  }

  /** A one-element list is just wrapped, provided the splitter is not empty. */
  lemma ArrayToStringSingle(a: string, splitter: string, lastSplitter: string, prefix: string, suffix: string)
    requires splitter != []
    ensures ArrayToString([a], splitter, lastSplitter, prefix, suffix) == prefix + a + suffix
    ensures ArrayToStringIntended([a], splitter, lastSplitter, prefix, suffix) == prefix + a + suffix
  {
    assert |a| < |splitter + a|;
  }

  /** Two elements get the last splitter, when splitter + b does not already start inside a. */
  lemma ArrayToStringPair(a: string, b: string, splitter: string, lastSplitter: string, prefix: string, suffix: string)
    requires splitter != []
    requires forall i :: 0 <= i < |a| ==> !IsPrefix(splitter + b, (a + (splitter + b))[i..])
    ensures ArrayToString([a, b], splitter, lastSplitter, prefix, suffix) == prefix + a + lastSplitter + b + suffix
    ensures ArrayToStringIntended([a, b], splitter, lastSplitter, prefix, suffix) == prefix + a + lastSplitter + b + suffix
  {
    var from := splitter + b;
    var to := lastSplitter + b;
    assert Join([a, b], splitter) == a + from;
    ReplaceSkipsPrefix(a, from, from, to);
    assert from[..|from|] == from;
    assert from[|from|..] == [];
    assert Replace(from, from, to) == to + Replace([], from, to);
    assert [a, b][..1] == [a];
  }

  /**
   * When the last two elements are equal, the written code also replaces
   * the splitter before the second-to-last one: [a, b, b] reads
   * "a and b and b" where "a, b and b" is meant (for instance
   * ["y", "x", "x"] with ", " and " and ").
   */
  lemma ArrayToStringRepeatedLast(a: string, b: string, splitter: string, lastSplitter: string)
    requires splitter != [] && splitter[0] !in a
    ensures ArrayToString([a, b, b], splitter, lastSplitter, "", "") == a + (lastSplitter + b) + (lastSplitter + b)
    ensures ArrayToStringIntended([a, b, b], splitter, lastSplitter, "", "") == a + splitter + b + (lastSplitter + b)
  {
    var from, to := splitter + b, lastSplitter + b;
    forall i | 0 <= i < |a| ensures !IsPrefix(from, (a + (from + from))[i..]) {
      assert (a + (from + from))[i..][0] == a[i];
    }
    calc {
      ArrayToString([a, b, b], splitter, lastSplitter, "", "");
    == { assert LastText([a, b, b]) == b; }
      "" + Replace(Join([a, b, b], splitter), from, to) + "";
    == { JoinThree(a, b, splitter); }
      "" + Replace(a + (from + from), from, to) + "";
    == { ReplaceSkipsPrefix(a, from + from, from, to); ReplaceTwice(from, to); }
      "" + (a + (to + to)) + "";
    == { assert "" + (a + (to + to)) + "" == a + (to + to); }
      a + to + to;
    }
    IntendedThree(a, b, splitter, lastSplitter);
  }

  lemma IntendedThree(a: string, b: string, splitter: string, lastSplitter: string)
    ensures ArrayToStringIntended([a, b, b], splitter, lastSplitter, "", "") == a + splitter + b + (lastSplitter + b)
  {
    assert [a, b, b][..2] == [a, b];
    assert Join([a, b], splitter) == a + splitter + b;
  }

  lemma JoinThree(a: string, b: string, splitter: string)
    ensures Join([a, b, b], splitter) == a + ((splitter + b) + (splitter + b))
  {
    var xs := [a, b, b];
    assert xs[1..] == [b, b] && xs[1..][1..] == [b];
    assert Join([b, b], splitter) == b + splitter + b;
    assert Join(xs, splitter) == a + splitter + (b + splitter + b);
  }

  lemma ReplaceTwice(from: string, to: string)
    requires from != []
    ensures Replace(from + from, from, to) == to + to
  {
    assert (from + from)[..|from|] == from && (from + from)[|from|..] == from;
    assert from[..|from|] == from && from[|from|..] == [];
    assert Replace(from, from, to) == to + Replace([], from, to);
  }

  // ---------------------------------------------------------------------
  // clean_text

  /** The characters clean_text keeps: the class [A-Za-z0-9\- ]. */
  predicate Kept(c: char) {
    ('A' <= c <= 'Z') || ('a' <= c <= 'z') || ('0' <= c <= '9') || c == '-' || c == ' '
  }

  /** clean_text: every character outside the class is removed. */
  function CleanText(s: string): (r: string)
    ensures |r| <= |s|
    ensures forall i :: 0 <= i < |r| ==> Kept(r[i])
  {
    if s == [] then []
    else (if Kept(s[0]) then [s[0]] else []) + CleanText(s[1..])
  }

  /** a is a (not necessarily contiguous) subsequence of b. */
  predicate IsSubsequence(a: string, b: string)
    decreases |b|
  {
    a == [] || (b != [] && (if a[0] == b[0] then IsSubsequence(a[1..], b[1..]) else IsSubsequence(a, b[1..])))
  }

  /** The output is a subsequence of the input. */
  lemma {:induction false} CleanTextSubsequence(s: string)
    ensures IsSubsequence(CleanText(s), s)
    decreases |s|
  {
    if s != [] {
      CleanTextSubsequence(s[1..]);
      var r := CleanText(s);
      if Kept(s[0]) {
        assert r[1..] == CleanText(s[1..]);
      } else {
        assert r == CleanText(s[1..]);
        if r != [] {
          assert Kept(r[0]);
          assert r[0] != s[0];
        }
      }
    }
  }

  /** Input made of kept characters only, and nothing else, comes back unchanged. */
  lemma {:induction false} CleanTextFixed(s: string)
    ensures CleanText(s) == s <==> forall i :: 0 <= i < |s| ==> Kept(s[i])
    decreases |s|
  {
    if s != [] {
      CleanTextFixed(s[1..]);
      if !Kept(s[0]) {
        assert |CleanText(s)| <= |s[1..]|;
      } else {
        assert forall i :: 1 <= i < |s| ==> s[1..][i - 1] == s[i];
      }
    }
  }

  /** clean_text is idempotent. */
  lemma CleanTextIdempotent(s: string)
    ensures CleanText(CleanText(s)) == CleanText(s)
  {
    CleanTextFixed(CleanText(s));
  }

  // ---------------------------------------------------------------------
  // readable_datetime: only the choice of the format string

  /** The pieces of the ISO formats: every locale's format is DayName + date + TimeOfDay. */
  const DayName := "dddd, "
  const TimeOfDay := ", HH:mm:ss"
  const DayFirst := "DD MMMM YYYY"
  const MonthFirst := "MMMM Do YYYY"

  /** The date part for a locale: day first for Javanese and Indonesian, month first otherwise. */
  function DatePart(locale: string): string {
    if locale == "jv" || locale == "id" then DayFirst else MonthFirst
  }

  /** The full format for a locale ("en" and unknown locales share the default). */
  function LocaleFormat(locale: string): string {
    DayName + DatePart(locale) + TimeOfDay
  }

  /** The time and day-name parts dropped from a format on request. */
  function DropParts(format: string, withTime: bool, withDayName: bool): string {
    var format := if !withTime then Replace(format, TimeOfDay, "") else format;
    if !withDayName then Replace(format, DayName, "") else format
  }

  /** The ISO format readable_datetime hands to Carbon. */
  function DateFormat(locale: string, withTime: bool, withDayName: bool): string {
    DropParts(LocaleFormat(locale), withTime, withDayName)
  }

  /** The time part is removed from the end of a format whose date part holds no 'H'. */
  lemma DropTime(date: string)
    requires 'H' !in date
    ensures Replace(date + TimeOfDay, TimeOfDay, "") == date
  {
    var time := TimeOfDay;
    var s := date + time;
    forall i | 0 <= i < |date| ensures !IsPrefix(time, s[i..]) {
      if i + 2 < |date| {
        assert s[i + 2] == date[i + 2];
      } else {
        assert s[i + 2] == time[i + 2 - |date|];
      }
    }
    ReplaceSkipsPrefix(date, time, time, "");
    assert time[..|time|] == time && time[|time|..] == [];
  }

  /** The day name is removed from the front of a format whose rest holds no 'd'. */
  lemma DropDayName(rest: string)
    requires 'd' !in rest
    ensures Replace(DayName + rest, DayName, "") == rest
  {
    var day := DayName;
    assert (day + rest)[..|day|] == day;
    assert (day + rest)[|day|..] == rest;
    MissingCharNotOccurs(rest, day, 'd');
    ReplaceAbsent(rest, day, "");
  }

  /** Dropping parts from a full format leaves the rest in order. */
  lemma DropPartsOrder(date: string, withTime: bool, withDayName: bool)
    requires 'H' !in date && 'd' !in date
    ensures DropParts(DayName + date + TimeOfDay, withTime, withDayName) ==
      (if withDayName then DayName else "") + date + (if withTime then TimeOfDay else "")
  {
    if !withTime {
      DropTime(DayName + date);
      if !withDayName {
        DropDayName(date);
      }
    } else if !withDayName {
      assert DayName + date + TimeOfDay == DayName + (date + TimeOfDay);
      assert 'd' !in TimeOfDay;
      DropDayName(date + TimeOfDay);
    }
  }

  /**
   * The format is the optional day name, the locale's date part and the
   * optional time, in that order.
   */
  lemma DateFormatParts(locale: string, withTime: bool, withDayName: bool)
    ensures DateFormat(locale, withTime, withDayName) ==
      (if withDayName then DayName else "") + DatePart(locale) + (if withTime then TimeOfDay else "")
  {
    assert 'H' !in DayFirst && 'd' !in DayFirst;
    assert 'H' !in MonthFirst && 'd' !in MonthFirst;
    DropPartsOrder(DatePart(locale), withTime, withDayName);
  }
}
