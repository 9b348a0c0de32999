/** The hero heading shows the display name in two parts: the text before the
    first space, and everything after it, each in its own span with a space
    between them. Both parts come from splitting the name at single spaces;
    the rest is the pieces after the first, joined back with spaces. */
module NameSplit {

  /** The number of space characters in `s`. */
  function Spaces(s: string): nat
    decreases |s|
  {
    if |s| == 0 then 0 else (if s[0] == ' ' then 1 else 0) + Spaces(s[1..])
  }

  /** JavaScript's `s.split(" ")`: the pieces between single spaces, empty
      pieces included, so that there is one piece more than there are spaces. */
  function Split(s: string): (r: seq<string>)
    ensures |r| == Spaces(s) + 1
    ensures forall k :: 0 <= k < |r| ==> ' ' !in r[k]
    // the first piece runs from the start up to the first space, or to the end
    ensures r[0] <= s && (|r[0]| == |s| || s[|r[0]|] == ' ')
    decreases |s|
  {
    if |s| == 0 then [""]
    else
      var rest := Split(s[1..]);
      if s[0] == ' ' then [""] + rest
      else [[s[0]] + rest[0]] + rest[1..]
  }

  /** JavaScript's `parts.join(" ")`; an empty list joins to "". */
  function Join(parts: seq<string>): (r: string)
    ensures |parts| > 0 ==> parts[0] <= r
    ensures |parts| > 1 ==> |r| > |parts[0]| && r[|parts[0]|] == ' '
    decreases |parts|
  {
    if |parts| == 0 then ""
    else if |parts| == 1 then parts[0]
    else parts[0] + " " + Join(parts[1..])
  }

  /** `name.split(" ")[0]`: the text before the first space, or the whole
      name when it has none. */
  function FirstName(name: string): (r: string)
    ensures ' ' !in r
    ensures r <= name && (r == name || name[|r|] == ' ')
  {
    Split(name)[0]
  }

  /** `name.split(" ").slice(1).join(" ")`: the text after the first space,
      or nothing when the name has none. */
  function RestOfName(name: string): (r: string)
    ensures ' ' in name ==> name == FirstName(name) + " " + r
    ensures ' ' !in name ==> r == ""
  {
    NameParts(name);
    Join(Split(name)[1..])
  }

  /** The heading's text: the first part, a space, the rest. It reads the
      whole name when the name has a space, and the name followed by a space
      otherwise. */
  function Heading(name: string): (r: string)
    ensures ' ' in name ==> r == name
    ensures ' ' !in name ==> r == name + " "
  {
    FirstName(name) + " " + RestOfName(name)
  }

  /** Joining the pieces of a split gives the string back. */
  lemma {:induction false} JoinSplit(s: string)
    ensures Join(Split(s)) == s
    decreases |s|
  {
    if |s| > 0 {
      var rest := Split(s[1..]);
      JoinSplit(s[1..]);
      if s[0] == ' ' {
        assert Split(s) == [""] + rest;
        assert Join([""] + rest) == "" + " " + Join(rest);
      } else if |rest| == 1 {
        assert Split(s) == [[s[0]] + rest[0]];
      } else {
        assert Split(s)[1..] == rest[1..];
        assert Join(rest) == rest[0] + " " + Join(rest[1..]);
      }
    }
  }

  /** A string without spaces splits into itself alone. */
  lemma {:induction false} SplitNoSpace(a: string)
    requires ' ' !in a
    ensures Split(a) == [a]
    decreases |a|
  {
    if |a| > 0 {
      SplitNoSpace(a[1..]);
      assert [a[0]] + a[1..] == a;
    }
  }

  /** Splitting at the first space peels off the text before it. */
  lemma {:induction false} SplitAtSpace(a: string, b: string)
    requires ' ' !in a
    ensures Split(a + " " + b) == [a] + Split(b)
    decreases |a|
  {
    var s := a + " " + b;
    if |a| == 0 {
      assert s[0] == ' ' && s[1..] == b;
    } else {
      assert s[1..] == a[1..] + " " + b;
      SplitAtSpace(a[1..], b);
      assert [a[0]] + a[1..] == a;
    }
  }

  /** Splitting a join of space-free pieces gives the pieces back. */
  lemma {:induction false} SplitJoin(parts: seq<string>)
    requires |parts| > 0
    requires forall k :: 0 <= k < |parts| ==> ' ' !in parts[k]
    ensures Split(Join(parts)) == parts
    decreases |parts|
  {
    if |parts| == 1 {
      SplitNoSpace(parts[0]);
    } else {
      SplitJoin(parts[1..]);
      SplitAtSpace(parts[0], Join(parts[1..]));
    }
  }

  /** What the two spans show: a name with a space is the first piece, a
      space and the other pieces joined; a name without one is a single
      piece, so the rest is empty. */
  lemma NameParts(name: string)
    ensures ' ' in name ==> Split(name)[0] + " " + Join(Split(name)[1..]) == name
    ensures ' ' !in name ==> Split(name) == [name]
  {
    var parts := Split(name);
    if ' ' in name {
      var k :| 0 <= k < |name| && name[k] == ' ';
      SpacesPositive(name, k);
      JoinSplit(name);
      assert Join(parts) == parts[0] + " " + Join(parts[1..]);
    } else {
      SplitNoSpace(name);
    }
  }

  lemma {:induction false} SpacesPositive(s: string, k: nat)
    requires k < |s| && s[k] == ' '
    ensures Spaces(s) > 0
    decreases k
  {
    if k > 0 {
      SpacesPositive(s[1..], k - 1);
    }
  }

  /** The split is determined by the first space: for a first word `a`
      without spaces, the parts of `a + " " + b` are `a` and `b`. */
  lemma FirstSpaceDecides(a: string, b: string)
    requires ' ' !in a
    ensures FirstName(a + " " + b) == a
    ensures RestOfName(a + " " + b) == b
  {
    SplitAtSpace(a, b);
    JoinSplit(b);
  }

  /** The display name of the portfolio. */
  const Name: string := "Mohan Narasimha"

  lemma PortfolioName()
    ensures FirstName(Name) == "Mohan"
    ensures RestOfName(Name) == "Narasimha"
    ensures Heading(Name) == Name
  {
    assert Name == "Mohan" + " " + "Narasimha";
    FirstSpaceDecides("Mohan", "Narasimha");
  }
}
