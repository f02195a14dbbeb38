/**
 * The parsing half of the event recorder (backend/app.py, lines 26-30): the
 * script's standard output is stripped of surrounding whitespace and split at
 * the first " - " into a timestamp and a message.
 */
module LineParser {
  import opened Wrappers

  /** The text between the timestamp and the message of an event line. */
  const Separator: string := " - "

  /** The characters Python's str.isspace() accepts, which str.strip() removes. */
  predicate IsWhitespace(c: char) {
    c == ' ' || ('\t' <= c <= '\r') || ('\U{1C}' <= c <= '\U{1F}')
    || c == '\U{85}' || c == '\U{A0}' || c == '\U{1680}'
    || ('\U{2000}' <= c <= '\U{200A}') || c == '\U{2028}' || c == '\U{2029}'
    || c == '\U{202F}' || c == '\U{205F}' || c == '\U{3000}'
  }

  predicate AllWhitespace(s: string) {
    forall k | 0 <= k < |s| :: IsWhitespace(s[k])
  }

  /** Every character of `s` with index in [lo, hi) is whitespace. */
  predicate WhitespaceBetween(s: string, lo: int, hi: int) {
    forall k | lo <= k < hi && 0 <= k < |s| :: IsWhitespace(s[k])
  }

  /** A string that str.strip() leaves as it is. */
  predicate IsStripped(s: string) {
    s == [] || (!IsWhitespace(s[0]) && !IsWhitespace(s[|s| - 1]))
  }

  /** Scanning forward from `i`, the index of the first non-whitespace character (or |s|). */
  function SkipForward(s: string, i: nat): (j: nat)
    requires i <= |s|
    decreases |s| - i
    ensures i <= j <= |s|
    ensures WhitespaceBetween(s, i, j)
    ensures j < |s| ==> !IsWhitespace(s[j])
  {
    if i < |s| && IsWhitespace(s[i]) then SkipForward(s, i + 1) else i
  }

  /**
   * Scanning backward from `j` but not below `lo`, the index just after the
   * last non-whitespace character (or `lo`).
   */
  function SkipBackward(s: string, lo: nat, j: nat): (k: nat)
    requires lo <= j <= |s|
    decreases j
    ensures lo <= k <= j
    ensures WhitespaceBetween(s, k, j)
    ensures k > lo ==> !IsWhitespace(s[k - 1])
  {
    if j > lo && IsWhitespace(s[j - 1]) then SkipBackward(s, lo, j - 1) else j
  }

  /** Where the stripped line starts in `s`. */
  function StripStart(s: string): nat {
    SkipForward(s, 0)
  }

  /** Where the stripped line ends in `s`. */
  function StripEnd(s: string): nat {
    SkipBackward(s, StripStart(s), |s|)
  }

  /**
   * str.strip(): move one index forward and another backward over
   * whitespace and keep what lies between them. The result neither starts
   * nor ends with whitespace.
   */
  function Strip(s: string): (r: string)
    ensures IsStripped(r)
  {
    s[StripStart(s)..StripEnd(s)]
  }

  /** Strip keeps a slice of `s` and what it drops around it is whitespace. */
  lemma StripDropsOnlyWhitespace(s: string)
    ensures StripStart(s) + |Strip(s)| <= |s|
    ensures s[StripStart(s)..StripStart(s) + |Strip(s)|] == Strip(s)
    ensures WhitespaceBetween(s, 0, StripStart(s))
    ensures WhitespaceBetween(s, StripStart(s) + |Strip(s)|, |s|)
  {
  }

  lemma {:induction false} SkipForwardStopsAt(s: string, i: nat, n: nat)
    requires i <= n <= |s|
    requires WhitespaceBetween(s, i, n)
    requires n < |s| ==> !IsWhitespace(s[n])
    ensures SkipForward(s, i) == n
    decreases n - i
  {
    if i < n {
      SkipForwardStopsAt(s, i + 1, n);
    }
  }

  lemma {:induction false} SkipBackwardStopsAt(s: string, lo: nat, j: nat, k: nat)
    requires lo <= k <= j <= |s|
    requires WhitespaceBetween(s, k, j)
    requires k > lo ==> !IsWhitespace(s[k - 1])
    ensures SkipBackward(s, lo, j) == k
    decreases j - k
  {
    if k < j {
      SkipBackwardStopsAt(s, lo, j - 1, k);
    }
  }

  /** Stripping removes exactly the surrounding whitespace: the converse of Strip's contract. */
  lemma StripOfPadded(w1: string, t: string, w2: string)
    requires AllWhitespace(w1) && AllWhitespace(w2) && IsStripped(t)
    ensures Strip(w1 + t + w2) == t
  {
    var s := w1 + t + w2;
    if t == [] {
      assert WhitespaceBetween(s, 0, |s|) by {
        forall k | 0 <= k < |s| ensures IsWhitespace(s[k]) {
          if k < |w1| { assert s[k] == w1[k]; } else { assert s[k] == w2[k - |w1|]; }
        }
      }
      SkipForwardStopsAt(s, 0, |s|);
      assert s[|s|..|s|] == [];
    } else {
      var i, j := |w1|, |w1| + |t|;
      assert WhitespaceBetween(s, 0, i) by {
        forall k | 0 <= k < i ensures IsWhitespace(s[k]) { assert s[k] == w1[k]; }
      }
      assert s[i] == t[0];
      SkipForwardStopsAt(s, 0, i);
      assert WhitespaceBetween(s, j, |s|) by {
        forall k | j <= k < |s| ensures IsWhitespace(s[k]) { assert s[k] == w2[k - j]; }
      }
      assert s[j - 1] == t[|t| - 1];
      SkipBackwardStopsAt(s, i, |s|, j);
      assert s[i..j] == t;
    }
  }

  /** Strip is idempotent. */
  lemma StripIdempotent(s: string)
    ensures Strip(Strip(s)) == Strip(s)
  {
    var t := Strip(s);
    assert [] + t + [] == t;
    StripOfPadded([], t, []);
  }

  /** `sep` occurs in `s` starting at index `i`. */
  predicate OccursAt(s: string, sep: string, i: int) {
    0 <= i && i + |sep| <= |s| && s[i..i + |sep|] == sep
  }

  predicate Contains(s: string, sep: string) {
    exists i | 0 <= i <= |s| - |sep| :: OccursAt(s, sep, i)
  }

  /** The leftmost index at or after `from` where `sep` occurs in `s`, if any. */
  function FindFrom(s: string, sep: string, from: nat): (r: Option<nat>)
    decreases |s| - from
    ensures r.Some? ==> from <= r.value && OccursAt(s, sep, r.value)
    ensures r.Some? ==> forall j | from <= j < r.value :: !OccursAt(s, sep, j)
    ensures r.None? ==> forall j | from <= j :: !OccursAt(s, sep, j)
  {
    if from + |sep| > |s| then None
    else if s[from..from + |sep|] == sep then Some(from)
    else FindFrom(s, sep, from + 1)
  }

  /**
   * s.split(sep, 1): one part when `sep` does not occur, otherwise the text
   * before its first occurrence and everything after it. Python refuses an
   * empty separator.
   */
  function SplitOnce(s: string, sep: string): (parts: seq<string>)
    requires sep != []
    ensures |parts| == 1 || |parts| == 2
    ensures |parts| == 2 <==> Contains(s, sep)
    ensures |parts| == 1 ==> parts[0] == s
    ensures |parts| == 2 ==> parts[0] + sep + parts[1] == s
    ensures |parts| == 2 ==> OccursAt(s, sep, |parts[0]|)
    ensures |parts| == 2 ==> forall j | 0 <= j < |parts[0]| :: !OccursAt(s, sep, j)
  {
    match FindFrom(s, sep, 0)
    case None => [s]
    case Some(i) =>
      assert s[..i] + sep + s[i + |sep|..] == s by {
        assert s == s[..i] + s[i..i + |sep|] + s[i + |sep|..];
      }
      [s[..i], s[i + |sep|..]]
  }

  /**
   * Lines 26-30: strip the line, split it once at " - " and, when there are
   * two parts, return them as (timestamp, message).
   */
  function ParseLine(stdout: string): (r: Option<(string, string)>)
    ensures r.Some? <==> Contains(Strip(stdout), Separator)
    ensures r.Some? ==> r.value.0 + Separator + r.value.1 == Strip(stdout)
  {
    var line := Strip(stdout);
    var parts := SplitOnce(line, Separator);
    if |parts| == 2 then Some((parts[0], parts[1])) else None
  }

  /** The split is at the first " - ": none starts inside the timestamp. */
  lemma ParseLineSplitsAtFirst(stdout: string)
    requires ParseLine(stdout).Some?
    ensures OccursAt(Strip(stdout), Separator, |ParseLine(stdout).value.0|)
    ensures forall j | 0 <= j < |ParseLine(stdout).value.0| :: !OccursAt(Strip(stdout), Separator, j)
  {
    var parts := SplitOnce(Strip(stdout), Separator);
    assert ParseLine(stdout).value.0 == parts[0];
  }

  /** A prefix that ends before the first occurrence of `sep` does not contain it. */
  lemma PrefixBeforeFirstLacks(s: string, sep: string, n: nat)
    requires sep != [] && n <= |s|
    requires forall j | 0 <= j < n :: !OccursAt(s, sep, j)
    ensures !Contains(s[..n], sep)
  {
    forall j | 0 <= j <= n - |sep|
      ensures !OccursAt(s[..n], sep, j)
    {
      assert !OccursAt(s, sep, j);
      assert s[..n][j..j + |sep|] == s[j..j + |sep|];
    }
  }

  /** A recorded timestamp never contains " - " itself. */
  lemma ParseLineTimeHasNoSeparator(stdout: string)
    requires ParseLine(stdout).Some?
    ensures !Contains(ParseLine(stdout).value.0, Separator)
  {
    var line := Strip(stdout);
    var time := ParseLine(stdout).value.0;
    ParseLineSplitsAtFirst(stdout);
    assert line[..|time|] == time;
    PrefixBeforeFirstLacks(line, Separator, |time|);
  }

  /**
   * The stripped line starts and ends with non-whitespace while " - " starts
   * and ends with a space, so both parts of a parsed line are non-empty.
   */
  lemma ParseLineFieldsNonEmpty(stdout: string)
    requires ParseLine(stdout).Some?
    ensures ParseLine(stdout).value.0 != []
    ensures ParseLine(stdout).value.1 != []
  {
    var line := Strip(stdout);
    var (time, msg) := ParseLine(stdout).value;
    assert line == time + Separator + msg;
    assert line[|time|] == ' ';
    assert line[|time| + 2] == ' ';
  }

  /** The inverse of SplitOnce: joining two parts splits back into them. */
  lemma SplitOnceOfJoined(a: string, sep: string, b: string)
    requires sep != []
    requires forall j | 0 <= j < |a| :: !OccursAt(a + sep + b, sep, j)
    ensures SplitOnce(a + sep + b, sep) == [a, b]
  {
    var s := a + sep + b;
    assert s[|a|..|a| + |sep|] == sep;
    assert OccursAt(s, sep, |a|);
    var parts := SplitOnce(s, sep);
    assert |parts| == 2;
    var p := |parts[0]|;
    assert p == |a|;
    assert parts[0] == s[..p] == a;
    assert parts[1] == s[p + |sep|..] == b;
  }

  /**
   * The inverse of ParseLine: any timestamp and message that strip() keeps,
   * joined by " - " with no earlier " - " in the line and padded with any
   * whitespace, parse back to themselves.
   */
  lemma ParseLineOfJoined(w1: string, time: string, msg: string, w2: string)
    requires AllWhitespace(w1) && AllWhitespace(w2)
    requires time != [] && !IsWhitespace(time[0])
    requires msg != [] && !IsWhitespace(msg[|msg| - 1])
    requires forall j | 0 <= j < |time| :: !OccursAt(time + Separator + msg, Separator, j)
    ensures ParseLine(w1 + time + Separator + msg + w2) == Some((time, msg))
  {
    var line := time + Separator + msg;
    assert w1 + time + Separator + msg + w2 == w1 + line + w2;
    assert IsStripped(line) by {
      assert line[0] == time[0];
      assert line[|line| - 1] == msg[|msg| - 1];
    }
    StripOfPadded(w1, line, w2);
    SplitOnceOfJoined(time, Separator, msg);
  }

  /**
   * Only the first " - " splits (maxsplit 1): when time + " " has no " - ",
   * every later " - " stays inside the message.
   */
  lemma ParseLineKeepsLaterSeparators(time: string, a: string, b: string)
    requires time != [] && !IsWhitespace(time[0]) && !Contains(time + " ", Separator)
    requires b != [] && !IsWhitespace(b[|b| - 1])
    ensures ParseLine(time + Separator + a + Separator + b) == Some((time, a + Separator + b))
  {
    var msg := a + Separator + b;
    var line := time + Separator + msg;
    var head := time + " ";
    forall j | 0 <= j < |time|
      ensures !OccursAt(line, Separator, j)
    {
      if j + |Separator| <= |head| {
        assert !OccursAt(head, Separator, j);
        assert line[j..j + |Separator|] == head[j..j + |Separator|];
      } else {
        assert line[j + 1] == ' ';
      }
    }
    assert msg[|msg| - 1] == b[|b| - 1];
    assert time + Separator + a + Separator + b == [] + time + Separator + msg + [];
    ParseLineOfJoined([], time, msg, []);
  }
}
