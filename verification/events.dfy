/**
 * The agent events both backend helpers consume, and the Python string
 * operations the per-key collector applies to them. Every attribute an event
 * may lack or hold as `None` is an `Option`.
 */
module AgentEvents {
  import opened Wrappers

  /** A content part; `text` is `None` when the part has no text. */
  datatype Part = Part(text: Option<string>)

  /** An event's content; `parts` is `None` when the list is missing. */
  datatype Content = Content(parts: Option<seq<Part>>)

  /** One event of the run: the optional `output_key` attribute and the optional content. */
  datatype Event = Event(outputKey: Option<string>, content: Option<Content>)

  /** Python truthiness of an optional string: present and not empty. */
  predicate Truthy(s: Option<string>)
  {
    s.Some? && s.value != ""
  }

  /** The parts list when the event has content with a truthy (non-empty) parts list. */
  predicate HasParts(e: Event)
  {
    e.content.Some? && e.content.value.parts.Some? && e.content.value.parts.value != []
  }

  /** Python's `str.isspace` for one character: the ASCII blanks, the separators U+001C..U+001F and the Unicode spaces. */
  predicate IsSpace(c: char)
  {
    var n := c as int;
    (9 <= n <= 13) || (28 <= n <= 32) || n == 0x85 || n == 0xA0 || n == 0x1680
    || (0x2000 <= n <= 0x200A) || n == 0x2028 || n == 0x2029 || n == 0x202F
    || n == 0x205F || n == 0x3000
  }

  /** How many whitespace characters open `s`. */
  function LeadingSpaces(s: string): (n: nat)
    ensures n <= |s|
    ensures forall k :: 0 <= k < n ==> IsSpace(s[k])
    ensures n < |s| ==> !IsSpace(s[n])
  {
    if s == [] || !IsSpace(s[0]) then 0
    else
      var rest := LeadingSpaces(s[1..]);
      assert forall k :: 1 <= k < 1 + rest ==> s[k] == s[1..][k - 1];
      1 + rest
  }

  /** How many whitespace characters close `s`. */
  function TrailingSpaces(s: string): (n: nat)
    ensures n <= |s|
    ensures forall k :: |s| - n <= k < |s| ==> IsSpace(s[k])
    ensures n < |s| ==> !IsSpace(s[|s| - 1 - n])
  {
    if s == [] || !IsSpace(s[|s| - 1]) then 0
    else 1 + TrailingSpaces(s[..|s| - 1])
  }

  /** `r` is the slice of `s` starting at `i`, and everything around it is whitespace. */
  predicate CutAt(s: string, r: string, i: int)
  {
    && 0 <= i <= |s| - |r| && r == s[i..i + |r|]
    && (forall k :: 0 <= k < i ==> IsSpace(s[k]))
    && (forall k :: i + |r| <= k < |s| ==> IsSpace(s[k]))
  }

  /** `str.strip()` with no argument: `s` without its opening and closing whitespace. */
  function Strip(s: string): (r: string)
    ensures |r| <= |s|
  {
    var i := LeadingSpaces(s);
    s[i..|s| - TrailingSpaces(s[i..])]
  }

  /**
   * What `strip()` returns is the longest middle slice of `s` that neither
   * starts nor ends with whitespace, everything cut off being whitespace; it
   * is empty exactly when `s` is all whitespace.
   */
  lemma StripSpec(s: string)
    ensures exists i :: CutAt(s, Strip(s), i)
    ensures Strip(s) != [] ==> !IsSpace(Strip(s)[0]) && !IsSpace(Strip(s)[|Strip(s)| - 1])
    ensures Strip(s) == [] <==> forall k :: 0 <= k < |s| ==> IsSpace(s[k])
  {
    var i := LeadingSpaces(s);
    var t := TrailingSpaces(s[i..]);
    var r := s[i..|s| - t];
    assert r == Strip(s);
    assert r == s[i..i + |r|];
    assert forall k :: |s| - t <= k < |s| ==> s[k] == s[i..][k - i];
    assert CutAt(s, r, i);
    if r != [] {
      assert r[|r| - 1] == s[i..][|s[i..]| - 1 - t];
    }
  }

  /** Stripping what is already stripped changes nothing. */
  lemma StripIdempotent(s: string)
    ensures Strip(Strip(s)) == Strip(s)
  {
    var r := Strip(s);
    StripSpec(s);
    if r != [] {
      assert LeadingSpaces(r) == 0;
      assert TrailingSpaces(r) == 0;
      assert r[0..|r| - 0] == r;
    }
  }

  /** `"\n".join(xs)`: the items with one newline between neighbours. */
  function JoinLines(xs: seq<string>): (r: string)
    ensures |xs| == 1 ==> r == xs[0]
    decreases |xs|
  {
    if xs == [] then ""
    else if |xs| == 1 then xs[0]
    else JoinLines(xs[..|xs| - 1]) + "\n" + xs[|xs| - 1]
  }

  /**
   * `s.split("\n")`, read one character at a time from the end: a newline
   * opens a new, empty last item; any other character extends the last item.
   */
  function SplitLines(s: string): (parts: seq<string>)
    ensures |parts| >= 1
    decreases |s|
  {
    if s == [] then [""]
    else
      var init := SplitLines(s[..|s| - 1]);
      if s[|s| - 1] == '\n' then init + [""]
      else init[..|init| - 1] + [init[|init| - 1] + [s[|s| - 1]]]
  }

  /** A text without a newline splits into itself alone. */
  lemma {:induction false} SplitPlain(y: string)
    requires '\n' !in y
    ensures SplitLines(y) == [y]
    decreases |y|
  {
    if y != [] {
      var y' := y[..|y| - 1];
      SplitPlain(y');
      assert y' + [y[|y| - 1]] == y;
    }
  }

  /** Appending a newline and a newline-free item appends that item to the split. */
  lemma {:induction false} SplitAfterNewline(p: string, y: string)
    requires '\n' !in y
    ensures SplitLines(p + "\n" + y) == SplitLines(p) + [y]
    decreases |y|
  {
    if y == [] {
      assert p + "\n" + y == p + "\n";
      assert (p + "\n")[..|p + "\n"| - 1] == p;
    } else {
      var y', c := y[..|y| - 1], y[|y| - 1];
      var s := p + "\n" + y;
      assert s[..|s| - 1] == p + "\n" + y';
      assert s[|s| - 1] == c;
      SplitAfterNewline(p, y');
      assert y' + [c] == y;
    }
  }

  /** Items without newlines are recovered from their join by splitting on newlines. */
  lemma {:induction false} JoinThenSplit(xs: seq<string>)
    requires xs != []
    requires forall k :: 0 <= k < |xs| ==> '\n' !in xs[k]
    ensures SplitLines(JoinLines(xs)) == xs
    decreases |xs|
  {
    if |xs| == 1 {
      SplitPlain(xs[0]);
    } else {
      var init := xs[..|xs| - 1];
      JoinThenSplit(init);
      SplitAfterNewline(JoinLines(init), xs[|xs| - 1]);
      assert init + [xs[|xs| - 1]] == xs;
    }
  }

  /** The join's length: every item plus one newline per gap. */
  function TotalLength(xs: seq<string>): nat
  {
    if xs == [] then 0 else TotalLength(xs[..|xs| - 1]) + |xs[|xs| - 1]|
  }

  lemma {:induction false} JoinLinesLength(xs: seq<string>)
    requires xs != []
    ensures |JoinLines(xs)| == TotalLength(xs) + |xs| - 1
    decreases |xs|
  {
    if |xs| > 1 { JoinLinesLength(xs[..|xs| - 1]); }
    else { assert xs[..0] == []; }
  }
}
