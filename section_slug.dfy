/** The test id of a section heading is built from the section's title:
    lower-cased, with every maximal run of whitespace replaced by a single
    hyphen ("Get in Touch" gives "get-in-touch"). Titles are ASCII here, so
    lower-casing is the A-Z to a-z mapping and whitespace is the ASCII class
    of regular expressions: space, tab, line feed, vertical tab, form feed and
    carriage return. */
module SectionSlug {

  predicate IsAscii(c: char) {
    c as int < 128
  }

  predicate AllAscii(s: string) {
    forall i :: 0 <= i < |s| ==> IsAscii(s[i])
  }

  /** `\s` on ASCII characters. */
  predicate IsSpace(c: char) {
    c == ' ' || 9 <= c as int <= 13
  }

  predicate IsUpper(c: char) {
    'A' <= c <= 'Z'
  }

  /** `toLowerCase` on one ASCII character. */
  function Lower(c: char): (r: char)
    ensures !IsUpper(r)
    // a capital becomes the small letter at the same place in the alphabet
    ensures IsUpper(c) ==> 'a' <= r <= 'z' && r as int - 'a' as int == c as int - 'A' as int
    ensures IsSpace(r) == IsSpace(c) && (r == '-') == (c == '-')
    ensures IsAscii(c) ==> IsAscii(r)
    ensures !IsUpper(c) ==> r == c
  {
    if IsUpper(c) then (c as int + 32) as char else c
  }

  /** `toLowerCase` on an ASCII string. */
  function ToLower(s: string): (r: string)
    ensures |r| == |s|
    ensures forall i :: 0 <= i < |s| ==> r[i] == Lower(s[i])
  {
    seq(|s|, i requires 0 <= i < |s| => Lower(s[i]))
  }

  /** The string after its leading whitespace. */
  function SkipSpaces(s: string): (r: string)
    ensures |r| <= |s| && r == s[|s| - |r|..]
    ensures |r| > 0 ==> !IsSpace(r[0])
    decreases |s|
  {
    if |s| > 0 && IsSpace(s[0]) then SkipSpaces(s[1..]) else s
  }

  /** `replace(/\s+/g, "-")`: each maximal run of whitespace becomes one
      hyphen; every other character is kept. */
  function Collapse(s: string): (r: string)
    ensures forall i :: 0 <= i < |r| ==> !IsSpace(r[i])
    ensures forall i :: 0 <= i < |r| ==> r[i] == '-' || r[i] in s
    decreases |s|
  {
    if |s| == 0 then ""
    else if IsSpace(s[0]) then "-" + Collapse(SkipSpaces(s[1..]))
    else [s[0]] + Collapse(s[1..])
  }

  /** The slug in the heading's test id. */
  function Slug(title: string): (r: string)
    requires AllAscii(title)
    ensures AllAscii(r)
    ensures forall i :: 0 <= i < |r| ==> !IsSpace(r[i]) && !IsUpper(r[i])
  {
    Collapse(ToLower(title))
  }

  /** Whitespace-free strings have nothing to collapse. */
  lemma {:induction false} CollapseNoSpace(s: string)
    requires forall i :: 0 <= i < |s| ==> !IsSpace(s[i])
    ensures Collapse(s) == s
    decreases |s|
  {
    if |s| > 0 {
      CollapseNoSpace(s[1..]);
      assert [s[0]] + s[1..] == s;
    }
  }

  lemma ToLowerNoUpper(s: string)
    requires forall i :: 0 <= i < |s| ==> !IsUpper(s[i])
    ensures ToLower(s) == s
  {
  }

  /** Applying the slug to a slug changes nothing. */
  lemma SlugIdempotent(title: string)
    requires AllAscii(title)
    ensures Slug(Slug(title)) == Slug(title)
  {
    var r := Slug(title);
    ToLowerNoUpper(r);
    CollapseNoSpace(r);
  }

  /** The number of whitespace characters that follow another one: what a
      run of length n loses when it becomes a single hyphen is n - 1. */
  function Redundant(s: string): nat
    decreases |s|
  {
    if |s| < 2 then 0
    else (if IsSpace(s[0]) && IsSpace(s[1]) then 1 else 0) + Redundant(s[1..])
  }

  /** The number of maximal whitespace runs, counted at their last character. */
  function Runs(s: string): nat
    decreases |s|
  {
    if |s| == 0 then 0
    else (if IsSpace(s[0]) && (|s| == 1 || !IsSpace(s[1])) then 1 else 0) + Runs(s[1..])
  }

  function SpaceCount(s: string): nat
    decreases |s|
  {
    if |s| == 0 then 0 else (if IsSpace(s[0]) then 1 else 0) + SpaceCount(s[1..])
  }

  function HyphenCount(s: string): nat
    decreases |s|
  {
    if |s| == 0 then 0 else (if s[0] == '-' then 1 else 0) + HyphenCount(s[1..])
  }

  /** The characters that are neither whitespace nor hyphens, in order. */
  function Kept(s: string): string
    decreases |s|
  {
    if |s| == 0 then ""
    else if IsSpace(s[0]) || s[0] == '-' then Kept(s[1..])
    else [s[0]] + Kept(s[1..])
  }

  /** Every whitespace character either continues into another one or ends
      a run. */
  lemma {:induction false} SpacesSplit(s: string)
    ensures SpaceCount(s) == Redundant(s) + Runs(s)
    decreases |s|
  {
    if |s| > 0 {
      SpacesSplit(s[1..]);
    }
  }

  /** Skipping a run that starts at s[0] drops its redundant characters. */
  lemma {:induction false} SkipRun(s: string)
    requires |s| > 0 && IsSpace(s[0])
    ensures Redundant(s) == |s| - 1 - |SkipSpaces(s[1..])| + Redundant(SkipSpaces(s[1..]))
    ensures HyphenCount(s) == HyphenCount(SkipSpaces(s[1..]))
    ensures Runs(s) == 1 + Runs(SkipSpaces(s[1..]))
    ensures Kept(s) == Kept(SkipSpaces(s[1..]))
    decreases |s|
  {
    if |s| > 1 && IsSpace(s[1]) {
      SkipRun(s[1..]);
    } else if |s| > 1 {
      RunsStartingAtWord(s[1..]);
    }
  }

  lemma RunsStartingAtWord(s: string)
    requires |s| > 0 && !IsSpace(s[0])
    ensures Runs(s) == Runs(s[1..])
  {
  }

  /** The collapsed string is the input less one character per redundant
      whitespace character; it gains one hyphen per run and keeps every other
      character in order. */
  lemma {:induction false} CollapseCounts(s: string)
    ensures |Collapse(s)| == |s| - Redundant(s)
    ensures HyphenCount(Collapse(s)) == HyphenCount(s) + Runs(s)
    ensures Kept(Collapse(s)) == Kept(s)
    decreases |s|
  {
    if |s| > 0 {
      if IsSpace(s[0]) {
        var t := SkipSpaces(s[1..]);
        CollapseCounts(t);
        SkipRun(s);
        assert ("-" + Collapse(t))[1..] == Collapse(t);
      } else {
        CollapseCounts(s[1..]);
        assert ([s[0]] + Collapse(s[1..]))[1..] == Collapse(s[1..]);
      }
    }
  }

  /** Lower-casing moves no whitespace and no hyphen. */
  lemma {:induction false} ToLowerCounts(s: string)
    ensures Redundant(ToLower(s)) == Redundant(s)
    ensures Runs(ToLower(s)) == Runs(s)
    ensures SpaceCount(ToLower(s)) == SpaceCount(s)
    ensures HyphenCount(ToLower(s)) == HyphenCount(s)
    ensures Kept(ToLower(s)) == ToLower(Kept(s))
    decreases |s|
  {
    if |s| > 0 {
      assert ToLower(s)[1..] == ToLower(s[1..]);
      ToLowerCounts(s[1..]);
      if !IsSpace(s[0]) && s[0] != '-' {
        assert ToLower([s[0]] + Kept(s[1..])) == [Lower(s[0])] + ToLower(Kept(s[1..]));
      }
    }
  }

  /** The slug's length is the title's length less (n - 1) for every
      whitespace run of length n, so it is never longer than the title. */
  lemma SlugLength(title: string)
    requires AllAscii(title)
    ensures |Slug(title)| == |title| - SpaceCount(title) + Runs(title)
    ensures |Slug(title)| <= |title|
  {
    CollapseCounts(ToLower(title));
    ToLowerCounts(title);
    SpacesSplit(title);
  }

  /** The slug has the title's hyphens plus one per whitespace run, and the
      title's other non-whitespace characters, lower-cased, in their order. */
  lemma SlugContents(title: string)
    requires AllAscii(title)
    ensures HyphenCount(Slug(title)) == HyphenCount(title) + Runs(title)
    ensures Kept(Slug(title)) == ToLower(Kept(title))
  {
    CollapseCounts(ToLower(title));
    ToLowerCounts(title);
  }

  /** A whitespace-free word passes through the collapse unchanged. */
  lemma {:induction false} CollapseWord(a: string, b: string)
    requires forall i :: 0 <= i < |a| ==> !IsSpace(a[i])
    ensures Collapse(a + b) == a + Collapse(b)
    decreases |a|
  {
    if |a| > 0 {
      assert (a + b)[0] == a[0] && (a + b)[1..] == a[1..] + b;
      assert Collapse(a + b) == [a[0]] + Collapse(a[1..] + b);
      CollapseWord(a[1..], b);
      assert [a[0]] + (a[1..] + Collapse(b)) == a + Collapse(b);
    } else {
      assert a + b == b;
    }
  }

  /** Skipping leading whitespace stops at the first character that is not
      whitespace. */
  lemma {:induction false} SkipWhole(w: string, b: string)
    requires forall i :: 0 <= i < |w| ==> IsSpace(w[i])
    requires |b| == 0 || !IsSpace(b[0])
    ensures SkipSpaces(w + b) == b
    decreases |w|
  {
    if |w| > 0 {
      assert (w + b)[0] == w[0] && (w + b)[1..] == w[1..] + b;
      SkipWhole(w[1..], b);
    } else {
      assert w + b == b;
    }
  }

  /** A whole run of whitespace, of any length, before a word (or at the end)
      becomes one hyphen. With `CollapseWord` this fixes `Collapse` on every
      input: the string alternates words and maximal runs. */
  lemma CollapseRun(w: string, b: string)
    requires |w| > 0
    requires forall i :: 0 <= i < |w| ==> IsSpace(w[i])
    requires |b| == 0 || !IsSpace(b[0])
    ensures Collapse(w + b) == "-" + Collapse(b)
  {
    var s := w + b;
    assert IsSpace(w[0]);
    assert s[0] == w[0] && s[1..] == w[1..] + b;
    assert forall i :: 0 <= i < |w[1..]| ==> IsSpace(w[1..][i]);
    SkipWhole(w[1..], b);
  }

  /** The replacement read one character at a time: a character that is not
      whitespace is kept, a whitespace character that starts a run (the
      previous one, if any, is not whitespace) is written as '-', and any
      other whitespace character is dropped. `afterSpace` says whether the
      previous character was whitespace. */
  function Hyphenate(s: string, afterSpace: bool): string
    decreases |s|
  {
    if |s| == 0 then ""
    else
      (if !IsSpace(s[0]) then [s[0]] else if !afterSpace then "-" else "")
      + Hyphenate(s[1..], IsSpace(s[0]))
  }

  /** After whitespace, further whitespace writes nothing. */
  lemma {:induction false} HyphenateSkip(u: string)
    ensures Hyphenate(u, true) == Hyphenate(SkipSpaces(u), true)
    decreases |u|
  {
    if |u| > 0 && IsSpace(u[0]) {
      HyphenateSkip(u[1..]);
    }
  }

  /** The collapse is the character-by-character replacement, on every
      input. */
  lemma {:induction false} CollapseByChar(s: string)
    ensures Collapse(s) == Hyphenate(s, false)
    decreases |s|
  {
    if |s| > 0 {
      if IsSpace(s[0]) {
        var t := SkipSpaces(s[1..]);
        HyphenateSkip(s[1..]);
        CollapseByChar(t);
        assert Hyphenate(t, true) == Hyphenate(t, false);
      } else {
        CollapseByChar(s[1..]);
      }
    }
  }

  /** The slug is the title lower-cased, then rewritten one character at a
      time as `Hyphenate` says. */
  lemma SlugByChar(title: string)
    requires AllAscii(title)
    ensures Slug(title) == Hyphenate(ToLower(title), false)
  {
    CollapseByChar(ToLower(title));
  }

  /** A run of two spaces gives one hyphen in its place, and a hyphen of the
      title stays where it is. */
  lemma CollapseDoubleSpace()
    ensures Collapse("a  b-c") == "a-b-c"
  {
    var a, w, b := "a", "  ", "b-c";
    assert a + (w + b) == "a  b-c";
    assert a + ("-" + b) == "a-b-c";
    CollapseNoSpace(b);
    CollapseRun(w, b);
    CollapseWord(a, w + b);
  }

  lemma ToLowerAppend(a: string, b: string)
    ensures ToLower(a + b) == ToLower(a) + ToLower(b)
  {
  }

  /** The section title of the contact section and its test id. */
  lemma ContactSlug()
    ensures Slug("Get in Touch") == "get-in-touch"
  {
    assert ToLower("Get in Touch") == "get in touch" by {
      LowerContactTitle();
    }
    assert Collapse("get in touch") == "get-in-touch" by {
      CollapseContactTitle();
    }
  }

  lemma LowerContactTitle()
    ensures ToLower("Get in Touch") == "get in touch"
  {
    var title := "Get in Touch";
    assert title == "Get" + (" " + ("in" + (" " + "Touch")));
    ToLowerAppend("Get", " in Touch");
    ToLowerAppend(" ", "in Touch");
    ToLowerAppend("in", " Touch");
    ToLowerAppend(" ", "Touch");
    assert ToLower("Get") == "get";
    assert ToLower("in") == "in";
    assert ToLower("Touch") == "touch";
    assert ToLower(" ") == " ";
  }

  /** Three words separated by single whitespace characters. */
  lemma CollapseThreeWords(a: string, b: string, c: string, g: char, h: char)
    requires forall i :: 0 <= i < |a| ==> !IsSpace(a[i])
    requires forall i :: 0 <= i < |b| ==> !IsSpace(b[i])
    requires forall i :: 0 <= i < |c| ==> !IsSpace(c[i])
    requires |b| > 0 && |c| > 0 && IsSpace(g) && IsSpace(h)
    ensures Collapse(a + [g] + b + [h] + c) == a + "-" + b + "-" + c
  {
    var x3 := [h] + c;
    var x2 := b + x3;
    var x1 := [g] + x2;
    assert Collapse(x3) == "-" + c by {
      CollapseNoSpace(c);
      CollapseRun([h], c);
    }
    assert Collapse(x2) == b + ("-" + c) by {
      CollapseWord(b, x3);
    }
    assert Collapse(x1) == "-" + (b + ("-" + c)) by {
      CollapseRun([g], x2);
    }
    assert Collapse(a + x1) == a + ("-" + (b + ("-" + c))) by {
      CollapseWord(a, x1);
    }
    Regroup(a, b, c, g, h);
  }

  lemma Regroup(a: string, b: string, c: string, g: char, h: char)
    ensures a + [g] + b + [h] + c == a + ([g] + (b + ([h] + c)))
    ensures a + ("-" + (b + ("-" + c))) == a + "-" + b + "-" + c
  {
  }

  lemma CollapseContactTitle()
    ensures Collapse("get in touch") == "get-in-touch"
  {
    var a, b, c := "get", "in", "touch";
    assert a + [' '] + b + [' '] + c == "get in touch";
    assert a + "-" + b + "-" + c == "get-in-touch";
    CollapseThreeWords(a, b, c, ' ', ' ');
  }
}
