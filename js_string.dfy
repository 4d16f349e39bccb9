/** The parts of JavaScript's String API the export parser relies on:
    `trim` and `split` with a string separator. JavaScript strings are
    sequences of UTF-16 code units; a Dafny `string` is a sequence of
    Unicode scalar values. Nothing the parser does depends on the
    difference: the empty test, `,`, `:`, the whitespace `trim` removes and
    the characters of the id pattern are each a single code unit. */
module JsString {

  import opened Wrappers

  /** The code points ECMAScript's `trim` removes: WhiteSpace (TAB, VT, FF,
      ZWNBSP and every space separator of category Zs) and LineTerminator
      (LF, CR, LINE SEPARATOR, PARAGRAPH SEPARATOR). */
  predicate IsWhitespace(c: char) {
    var n := c as int;
    n == 0x09 || n == 0x0A || n == 0x0B || n == 0x0C || n == 0x0D || n == 0x20
    || n == 0xA0 || n == 0x1680 || (0x2000 <= n <= 0x200A) || n == 0x2028
    || n == 0x2029 || n == 0x202F || n == 0x205F || n == 0x3000 || n == 0xFEFF
  }

  predicate AllWhitespace(s: string) {
    forall i :: 0 <= i < |s| ==> IsWhitespace(s[i])
  }

  /** `String.prototype.trimStart`. */
  function TrimStart(s: string): string {
    if s == [] || !IsWhitespace(s[0]) then s else TrimStart(s[1..])
  }

  /** `String.prototype.trimEnd`. */
  function TrimEnd(s: string): string {
    if s == [] || !IsWhitespace(s[|s| - 1]) then s else TrimEnd(s[..|s| - 1])
  }

  /** `String.prototype.trim`: the result is no longer than `s`, and
      neither of its ends is whitespace. */
  function Trim(s: string): (r: string)
    ensures |r| <= |s|
    ensures r == [] || (!IsWhitespace(r[0]) && !IsWhitespace(r[|r| - 1]))
  {
    TrimStartSpec(s);
    TrimEndSpec(TrimStart(s));
    TrimEnd(TrimStart(s))
  }

  /** `TrimStart` keeps the longest suffix of `s` that does not start with
      whitespace: everything it cuts off is whitespace. */
  lemma {:induction false} TrimStartSpec(s: string)
    ensures var r := TrimStart(s);
      |r| <= |s| && r == s[|s| - |r|..] && AllWhitespace(s[..|s| - |r|])
      && (r == [] || !IsWhitespace(r[0]))
  {
    if s != [] && IsWhitespace(s[0]) {
      TrimStartSpec(s[1..]);
      var r := TrimStart(s[1..]);
      assert s[1..][..|s| - 1 - |r|] == s[1..|s| - |r|];
    }
  }

  /** `TrimEnd` keeps the longest prefix of `s` that does not end with
      whitespace: everything it cuts off is whitespace. */
  lemma {:induction false} TrimEndSpec(s: string)
    ensures var r := TrimEnd(s);
      |r| <= |s| && r == s[..|r|] && AllWhitespace(s[|r|..])
      && (r == [] || !IsWhitespace(r[|r| - 1]))
  {
    if s != [] && IsWhitespace(s[|s| - 1]) {
      var p := s[..|s| - 1];
      TrimEndSpec(p);
      var r := TrimEnd(p);
      assert TrimEnd(s) == r;
      assert p[..|r|] == s[..|r|];
      assert s[|r|..] == p[|r|..] + [s[|s| - 1]];
      forall i | 0 <= i < |s| - |r|
        ensures IsWhitespace(s[|r|..][i])
      {
        if i < |p| - |r| {
          assert s[|r|..][i] == p[|r|..][i];
        }
      }
    }
  }

  /** `Trim` removes exactly a whitespace prefix and a whitespace suffix:
      the result is a contiguous piece of `s`, and everything outside it is
      whitespace. */
  lemma TrimSpec(s: string)
    ensures var r := Trim(s);
      exists i :: 0 <= i <= i + |r| <= |s| && r == s[i..i + |r|]
        && AllWhitespace(s[..i]) && AllWhitespace(s[i + |r|..])
  {
    var t := TrimStart(s);
    var r := TrimEnd(t);
    TrimStartSpec(s);
    TrimEndSpec(t);
    var i := |s| - |t|;
    assert r == s[i..i + |r|];
    assert s[i + |r|..] == t[|r|..];
    assert AllWhitespace(s[..i]) && AllWhitespace(s[i + |r|..]);
  }

  /** Trimming twice is trimming once. */
  lemma TrimIdempotent(s: string)
    ensures Trim(Trim(s)) == Trim(s)
  {
    TrimSpec(s);
  }

  /** A string made only of whitespace trims to the empty string. */
  lemma {:induction false} TrimAllWhitespace(s: string)
    requires AllWhitespace(s)
    ensures Trim(s) == []
  {
    if s != [] {
      TrimAllWhitespace(s[1..]);
    }
  }

  /** A string with no whitespace at either end is left alone by `Trim`. */
  lemma TrimNoOp(s: string)
    requires s == [] || (!IsWhitespace(s[0]) && !IsWhitespace(s[|s| - 1]))
    ensures Trim(s) == s
  {
  }

  /** A space in front of a text with no whitespace at either end is
      trimmed away. */
  lemma TrimLeadingSpace(s: string)
    requires s != [] && !IsWhitespace(s[0]) && !IsWhitespace(s[|s| - 1])
    ensures Trim(" " + s) == s
  {
    var t := " " + s;
    assert t[0] == ' ' && t[1..] == s;
    assert TrimStart(t) == TrimStart(s) == s;
  }

  /** `Trim` keeps a piece of its argument, so it brings in no character. */
  lemma TrimKeepsOut(s: string, c: char)
    requires c !in s
    ensures c !in Trim(s)
  {
    var t := TrimStart(s);
    TrimStartSpec(s);
    TrimEndSpec(t);
    var r := TrimEnd(t);
    var i := |s| - |t|;
    forall k | 0 <= k < |r|
      ensures r[k] != c
    {
      assert r[k] == t[k] == s[i + k];
    }
  }

  /** `sep` occurs in `s` starting at index `i`. */
  predicate OccursAt(s: string, sep: string, i: nat) {
    i + |sep| <= |s| && s[i..i + |sep|] == sep
  }

  ghost predicate Contains(s: string, sep: string) {
    exists i: nat :: OccursAt(s, sep, i)
  }

  /** The leftmost occurrence of `sep` in `s` at or after `from`. */
  function FirstOccurrence(s: string, sep: string, from: nat): (r: Option<nat>)
    requires from <= |s|
    ensures r.Some? ==> from <= r.value && OccursAt(s, sep, r.value)
    decreases |s| - from
  {
    if from + |sep| > |s| then None
    else if OccursAt(s, sep, from) then Some(from)
    else FirstOccurrence(s, sep, from + 1)
  }

  /** No occurrence of `sep` starts between `from` and the one
      `FirstOccurrence` finds, nor after `from` at all when it finds none. */
  lemma {:induction false} FirstOccurrenceIsFirst(s: string, sep: string, from: nat)
    requires from <= |s|
    ensures var r := FirstOccurrence(s, sep, from);
      forall j: nat :: from <= j && (r.Some? ==> j < r.value) ==> !OccursAt(s, sep, j)
    decreases |s| - from
  {
    if from + |sep| <= |s| && !OccursAt(s, sep, from) {
      FirstOccurrenceIsFirst(s, sep, from + 1);
    }
  }

  /** `String.prototype.split` with a non-empty string separator and no
      limit: the pieces between the leftmost non-overlapping occurrences
      of `sep`. */
  function Split(s: string, sep: string): (r: seq<string>)
    requires |sep| > 0
    ensures |r| >= 1
    decreases |s|
  {
    match FirstOccurrence(s, sep, 0)
    case None => [s]
    case Some(i) => [s[..i]] + Split(s[i + |sep|..], sep)
  }

  /** `Array.prototype.join`, the inverse of `Split`. */
  function Join(pieces: seq<string>, sep: string): string
    requires |pieces| >= 1
  {
    if |pieces| == 1 then pieces[0] else pieces[0] + sep + Join(pieces[1..], sep)
  }

  /** Splitting loses nothing: joining the pieces with the separator gives
      back the original string. */
  lemma {:induction false} SplitJoin(s: string, sep: string)
    requires |sep| > 0
    ensures Join(Split(s, sep), sep) == s
    decreases |s|
  {
    var first := FirstOccurrence(s, sep, 0);
    if first.Some? {
      var i := first.value;
      var rest := s[i + |sep|..];
      SplitJoin(rest, sep);
      SplitFirst(s, sep, i);
      JoinFirst(s[..i], Split(rest, sep), sep);
      Rejoin(s, sep, i);
    }
  }

  /** Where `sep` first occurs at `i`, the first piece is `s[..i]` and the
      rest is the split of what follows the separator. */
  lemma SplitFirst(s: string, sep: string, i: nat)
    requires |sep| > 0 && FirstOccurrence(s, sep, 0) == Some(i)
    ensures Split(s, sep) == [s[..i]] + Split(s[i + |sep|..], sep)
  {
  }

  lemma JoinFirst(p: string, pieces: seq<string>, sep: string)
    requires |pieces| >= 1
    ensures Join([p] + pieces, sep) == p + sep + Join(pieces, sep)
  {
    assert ([p] + pieces)[1..] == pieces;
  }

  /** Putting an occurrence of `sep` back between the text around it gives
      the original string. */
  lemma Rejoin(s: string, sep: string, i: nat)
    requires OccursAt(s, sep, i)
    ensures s[..i] + sep + s[i + |sep|..] == s
  {
    assert s == s[..i] + s[i..i + |sep|] + s[i + |sep|..];
  }

  /** No piece of a split contains the separator. */
  lemma {:induction false} SplitPiecesAvoidSeparator(s: string, sep: string)
    requires |sep| > 0
    ensures forall p :: p in Split(s, sep) ==> !Contains(p, sep)
    decreases |s|
  {
    FirstOccurrenceIsFirst(s, sep, 0);
    match FirstOccurrence(s, sep, 0)
    case None =>
      assert Split(s, sep) == [s];
    case Some(i) =>
      var rest := s[i + |sep|..];
      SplitPiecesAvoidSeparator(rest, sep);
      assert Split(s, sep) == [s[..i]] + Split(rest, sep);
      forall j: nat
        ensures !OccursAt(s[..i], sep, j)
      {
        if j + |sep| <= i {
          assert s[..i][j..j + |sep|] == s[j..j + |sep|];
          assert !OccursAt(s, sep, j);
        }
      }
  }

  /** No proper non-empty prefix of `sep` is also a suffix of it, so two
      occurrences of `sep` can never overlap. */
  predicate Unbordered(sep: string) {
    forall k :: 0 < k < |sep| ==> sep[..k] != sep[|sep| - k..]
  }

  /** Text appended after an occurrence does not change which occurrence
      comes first. */
  lemma {:induction false} FirstOccurrenceExtend(s: string, extra: string, sep: string, from: nat)
    requires from <= |s| && FirstOccurrence(s, sep, from).Some?
    ensures FirstOccurrence(s + extra, sep, from) == FirstOccurrence(s, sep, from)
    decreases |s| - from
  {
    var t := s + extra;
    assert OccursAt(t, sep, from) == OccursAt(s, sep, from) by {
      if from + |sep| <= |s| {
        assert t[from..from + |sep|] == s[from..from + |sep|];
      }
    }
    if !OccursAt(s, sep, from) {
      FirstOccurrenceExtend(s, extra, sep, from + 1);
    }
  }

  /** An occurrence at `i` with none between `from` and `i` is the first
      one at or after `from`. */
  lemma {:induction false} FirstOccurrenceAt(s: string, sep: string, from: nat, i: nat)
    requires from <= i && OccursAt(s, sep, i)
    requires forall j: nat :: from <= j < i ==> !OccursAt(s, sep, j)
    ensures FirstOccurrence(s, sep, from) == Some(i)
    decreases i - from
  {
    if from < i {
      FirstOccurrenceAt(s, sep, from + 1, i);
    }
  }

  /** An occurrence in `s + sep` that starts inside `s` and ends inside the
      appended `sep` makes a prefix of `sep` equal to a suffix of it. */
  lemma StraddleBorder(s: string, sep: string, j: nat)
    requires j < |s| < j + |sep|
    ensures var m := j + |sep| - |s|;
      OccursAt(s + sep, sep, j) ==> sep[..m] == sep[|sep| - m..]
  {
    var t := s + sep;
    var m := j + |sep| - |s|;
    if OccursAt(t, sep, j) {
      forall q | 0 <= q < m
        ensures sep[..m][q] == sep[|sep| - m..][q]
      {
        assert t[|s| + q] == sep[q];
        assert t[j..j + |sep|][|sep| - m + q] == t[j + |sep| - m + q];
      }
    }
  }

  /** When `s` has no occurrence of an unbordered `sep`, neither has
      `s + sep` anywhere before the appended copy. */
  lemma NoStraddle(s: string, sep: string, j: nat)
    requires Unbordered(sep) && j < |s|
    requires forall j': nat :: !OccursAt(s, sep, j')
    ensures !OccursAt(s + sep, sep, j)
  {
    var t := s + sep;
    if j + |sep| <= |s| {
      assert t[j..j + |sep|] == s[j..j + |sep|];
      assert !OccursAt(s, sep, j);
    } else {
      StraddleBorder(s, sep, j);
    }
  }

  /** Without an occurrence in `s`, `s + sep` splits into `s` and "". */
  lemma SplitTerminatedLast(s: string, sep: string)
    requires |sep| > 0 && Unbordered(sep) && FirstOccurrence(s, sep, 0).None?
    ensures Split(s + sep, sep) == [s, ""]
  {
    var t := s + sep;
    FirstOccurrenceIsFirst(s, sep, 0);
    forall j: nat | j < |s|
      ensures !OccursAt(t, sep, j)
    {
      NoStraddle(s, sep, j);
    }
    assert t[|s|..|s| + |sep|] == sep;
    FirstOccurrenceAt(t, sep, 0, |s|);
    SplitFirst(t, sep, |s|);
    assert t[..|s|] == s && t[|s| + |sep|..] == [];
  }

  /** A final separator adds one empty last piece and changes nothing
      else: a text ending in a line terminator splits into its lines and
      an empty one. */
  lemma {:induction false} SplitTerminated(s: string, sep: string)
    requires |sep| > 0 && Unbordered(sep)
    ensures Split(s + sep, sep) == Split(s, sep) + [""]
    decreases |s|
  {
    var first := FirstOccurrence(s, sep, 0);
    if first.Some? {
      var i := first.value;
      SplitTerminated(s[i + |sep|..], sep);
      SplitTerminatedFirst(s, sep, i);
    } else {
      SplitTerminatedLast(s, sep);
    }
  }

  /** The step of `SplitTerminated` past the first occurrence in `s`. */
  lemma SplitTerminatedFirst(s: string, sep: string, i: nat)
    requires |sep| > 0 && FirstOccurrence(s, sep, 0) == Some(i)
    requires var rest := s[i + |sep|..]; Split(rest + sep, sep) == Split(rest, sep) + [""]
    ensures Split(s + sep, sep) == Split(s, sep) + [""]
  {
    var t := s + sep;
    var rest := s[i + |sep|..];
    FirstOccurrenceExtend(s, sep, sep, 0);
    SplitFirst(s, sep, i);
    SplitFirst(t, sep, i);
    assert t[..i] == s[..i] && t[i + |sep|..] == rest + sep;
    calc {
      Split(t, sep);
      [s[..i]] + Split(rest + sep, sep);
      [s[..i]] + (Split(rest, sep) + [""]);
      ([s[..i]] + Split(rest, sep)) + [""];
      Split(s, sep) + [""];
    }
  }

  /** With a one-character separator absent from `s`, `s` is its own only
      piece. */
  lemma SplitWithout(s: string, c: char)
    requires c !in s
    ensures Split(s, [c]) == [s]
  {
    forall j: nat
      ensures !OccursAt(s, [c], j)
    {
      if j + 1 <= |s| {
        assert s[j..j + 1] == [s[j]] && s[j] in s;
      }
    }
  }

  /** With a one-character separator, the first piece runs up to the first
      occurrence of the separator. */
  lemma SplitAt(a: string, c: char, b: string)
    requires c !in a
    ensures Split(a + [c] + b, [c]) == [a] + Split(b, [c])
  {
    var s := a + [c] + b;
    assert OccursAt(s, [c], |a|);
    forall j: nat | j < |a|
      ensures !OccursAt(s, [c], j)
    {
      assert s[j..j + 1] == [a[j]] && a[j] in a;
    }
    FirstOccurrenceIsFirst(s, [c], 0);
    assert s[..|a|] == a && s[|a| + 1..] == b;
  }

  /** No piece of a split at a single character holds that character. */
  lemma SplitPiecesAvoidChar(s: string, c: char)
    ensures forall p :: p in Split(s, [c]) ==> c !in p
  {
    SplitPiecesAvoidSeparator(s, [c]);
    forall p | p in Split(s, [c])
      ensures c !in p
    {
      if c in p {
        var j :| 0 <= j < |p| && p[j] == c;
        assert OccursAt(p, [c], j);
      }
    }
  }

  /** A split at a single character gives one piece exactly when the text
      does not hold that character. */
  lemma SplitCount(s: string, c: char)
    ensures |Split(s, [c])| == 1 <==> c !in s
  {
    if c in s {
      var j :| 0 <= j < |s| && s[j] == c;
      assert OccursAt(s, [c], j);
      FirstOccurrenceIsFirst(s, [c], 0);
    } else {
      SplitWithout(s, c);
    }
  }
}
