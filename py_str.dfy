/** The few operations of Python's built-in `str` type that the test-output
    parser relies on: substring search from a start index (`find`/`index`),
    search backwards below an end index (`rindex`), `replace`, `split`,
    `join`, the `in` test and slicing, plus `CountChar`, which counts one
    character and is used only to state contracts. Strings are `seq<char>`.
 */
module PyStr {

  datatype Option<T> = None | Some(value: T)

  /** `p` occurs in `s` starting at index `i`. */
  predicate OccursAt(s: string, p: string, i: int)
  {
    0 <= i && i + |p| <= |s| && s[i..i + |p|] == p
  }

  /** Python's `p in s`. */
  ghost predicate Contains(s: string, p: string)
  {
    exists i :: OccursAt(s, p, i)
  }

  /** `s.find(p, from)`: the lowest index at or after `from` where `p` occurs,
      or None where Python's `s.index(p, from)` raises ValueError. */
  function IndexOf(s: string, p: string, from: nat): (r: Option<nat>)
    ensures r.Some? ==> from <= r.value && OccursAt(s, p, r.value)
    ensures forall j :: from <= j && (r.None? || j < r.value) ==> !OccursAt(s, p, j)
    decreases |s| - from
  {
    if from + |p| > |s| then None
    else if s[from..from + |p|] == p then Some(from)
    else IndexOf(s, p, from + 1)
  }

  /** `s.rfind(p, 0, end)`: the highest index `i` with `p` wholly inside
      `s[0:end]`, or None where Python's `s.rindex(p, 0, end)` raises ValueError. */
  function LastIndexOf(s: string, p: string, end: nat): (r: Option<nat>)
    requires end <= |s|
    ensures r.Some? ==> r.value + |p| <= end && OccursAt(s, p, r.value)
    ensures forall j :: (r.None? || r.value < j) && j + |p| <= end ==> !OccursAt(s, p, j)
    decreases end
  {
    if end < |p| then None
    else if s[end - |p|..end] == p then Some(end - |p|)
    else LastIndexOf(s, p, end - 1)
  }

  /** `s[i:j]` for indices inside the string: empty when `j <= i`. */
  function Slice(s: string, i: nat, j: nat): string
    requires i <= |s| && j <= |s|
  {
    if i < j then s[i..j] else []
  }

  /** The number of occurrences of `c` in `s`; used to state contracts. */
  function CountChar(s: string, c: char): nat
  {
    if s == [] then 0 else (if s[0] == c then 1 else 0) + CountChar(s[1..], c)
  }

  lemma {:induction false} CountCharAppend(a: string, b: string, c: char)
    ensures CountChar(a + b, c) == CountChar(a, c) + CountChar(b, c)
  {
    if a != [] {
      assert (a + b)[1..] == a[1..] + b;
      CountCharAppend(a[1..], b, c);
    } else {
      assert a + b == b;
    }
  }

  lemma {:induction false} CountCharZero(s: string, c: char)
    ensures CountChar(s, c) == 0 <==> c !in s
  {
    if s != [] {
      CountCharZero(s[1..], c);
      assert s == [s[0]] + s[1..];
    }
  }

  /** `s.replace(pat, rep)`: a left-to-right scan that replaces each
      occurrence of `pat` it meets and resumes after it, so the occurrences
      replaced never overlap. Python's special case of an empty `pat` is not
      needed by any caller. */
  function ReplaceAll(s: string, pat: string, rep: string): (r: string)
    requires |pat| > 0
    ensures pat[0] !in s ==> r == s
    ensures |rep| == |pat| ==> |r| == |s|
    decreases |s|
  {
    assert s != [] ==> (OccursAt(s, pat, 0) ==> s[0] == pat[0]) by {
      if s != [] && OccursAt(s, pat, 0) {
        assert s[0..|pat|][0] == s[0];
      }
    }
    if s == [] then []
    else if OccursAt(s, pat, 0) then rep + ReplaceAll(s[|pat|..], pat, rep)
    else [s[0]] + ReplaceAll(s[1..], pat, rep)
  }

  /** `s.split(sep)` for a one-character separator: never an empty list;
      the empty string splits into `[""]`. */
  function Split(s: string, sep: char): (parts: seq<string>)
    ensures |parts| == CountChar(s, sep) + 1
    ensures forall k :: 0 <= k < |parts| ==> sep !in parts[k]
    decreases |s|
  {
    if s == [] then [""]
    else
      var rest := Split(s[1..], sep);
      if s[0] == sep then [""] + rest
      else [[s[0]] + rest[0]] + rest[1..]
  }

  /** `glue.join(parts)`. */
  function Join(parts: seq<string>, glue: string): (r: string)
    ensures parts != [] ==> parts[0] <= r
    decreases |parts|
  {
    if parts == [] then ""
    else if |parts| == 1 then parts[0]
    else parts[0] + glue + Join(parts[1..], glue)
  }

  /** Every character `s.replace(pat, rep)` produces comes from `s` or from `rep`. */
  lemma {:induction false} ReplaceAllChars(s: string, pat: string, rep: string, x: char)
    requires |pat| > 0
    ensures x in ReplaceAll(s, pat, rep) ==> x in s || x in rep
    decreases |s|
  {
    if s != [] {
      if OccursAt(s, pat, 0) {
        ReplaceAllChars(s[|pat|..], pat, rep, x);
      } else {
        ReplaceAllChars(s[1..], pat, rep, x);
      }
    }
  }

  /** Replacing one character by one character keeps the length and acts
      position by position. */
  lemma {:induction false} ReplaceCharPointwise(s: string, c: char, d: char)
    ensures |ReplaceAll(s, [c], [d])| == |s|
    ensures forall i :: 0 <= i < |s| ==> ReplaceAll(s, [c], [d])[i] == if s[i] == c then d else s[i]
    decreases |s|
  {
    if s != [] {
      ReplaceCharPointwise(s[1..], c, d);
      assert OccursAt(s, [c], 0) <==> s[0] == c;
    }
  }

  /** Replacing a single character distributes over concatenation. */
  lemma {:induction false} ReplaceCharAppend(a: string, b: string, c: char, rep: string)
    ensures ReplaceAll(a + b, [c], rep) == ReplaceAll(a, [c], rep) + ReplaceAll(b, [c], rep)
    decreases |a|
  {
    if a == [] {
      assert a + b == b;
    } else {
      assert (a + b)[1..] == a[1..] + b;
      assert OccursAt(a + b, [c], 0) <==> OccursAt(a, [c], 0);
      ReplaceCharAppend(a[1..], b, c, rep);
    }
  }

  /** Joining the pieces of a split with `glue` replaces each separator by `glue`. */
  lemma {:induction false} JoinSplitIsReplace(s: string, sep: char, glue: string)
    ensures Join(Split(s, sep), glue) == ReplaceAll(s, [sep], glue)
    decreases |s|
  {
    if s != [] {
      var rest := Split(s[1..], sep);
      JoinSplitIsReplace(s[1..], sep, glue);
      assert OccursAt(s, [sep], 0) <==> s[0] == sep;
      if s[0] == sep {
        assert Split(s, sep) == [[]] + rest;
        assert ReplaceAll(s, [sep], glue) == glue + ReplaceAll(s[1..], [sep], glue);
        JoinCons([], rest, glue);
        assert [] + glue == glue;
      } else {
        assert Split(s, sep) == [[s[0]] + rest[0]] + rest[1..];
        assert ReplaceAll(s, [sep], glue) == [s[0]] + ReplaceAll(s[1..], [sep], glue);
        JoinExtendFirst([s[0]], rest, glue);
      }
    }
  }

  /** Joining an empty part in front adds the glue in front. */
  lemma JoinCons(x: string, parts: seq<string>, glue: string)
    requires parts != []
    ensures Join([x] + parts, glue) == x + glue + Join(parts, glue)
  {
    assert ([x] + parts)[1..] == parts;
  }

  /** Extending the first part extends the joined text. */
  lemma JoinExtendFirst(x: string, parts: seq<string>, glue: string)
    requires parts != []
    ensures Join([x + parts[0]] + parts[1..], glue) == x + Join(parts, glue)
  {
    var ps := [x + parts[0]] + parts[1..];
    if |parts| > 1 {
      assert ps[1..] == parts[1..];
      assert x + parts[0] + glue + Join(parts[1..], glue) == x + (parts[0] + glue + Join(parts[1..], glue));
    }
  }

  /** Splitting on a character and joining back with that character is the identity. */
  lemma JoinSplitRoundTrip(s: string, sep: char)
    ensures Join(Split(s, sep), [sep]) == s
  {
    JoinSplitIsReplace(s, sep, [sep]);
    ReplaceCharPointwise(s, sep, sep);
  }

  /** A prefix in which `pat` cannot start passes through `replace` unchanged. */
  lemma {:induction false} ReplaceAllSkipsPrefix(a: string, b: string, pat: string, rep: string)
    requires |pat| > 0 && pat[0] !in a
    ensures ReplaceAll(a + b, pat, rep) == a + ReplaceAll(b, pat, rep)
    decreases |a|
  {
    if a == [] {
      assert a + b == b;
    } else {
      assert !OccursAt(a + b, pat, 0);
      assert (a + b)[1..] == a[1..] + b;
      ReplaceAllSkipsPrefix(a[1..], b, pat, rep);
    }
  }

  /** Where `pat` first shows up after such a prefix, it is replaced. */
  lemma ReplaceAllFirstOccurrence(a: string, b: string, pat: string, rep: string)
    requires |pat| > 0 && pat[0] !in a
    ensures ReplaceAll(a + pat + b, pat, rep) == a + rep + ReplaceAll(b, pat, rep)
  {
    assert a + pat + b == a + (pat + b);
    ReplaceAllSkipsPrefix(a, pat + b, pat, rep);
    assert OccursAt(pat + b, pat, 0);
    assert (pat + b)[|pat|..] == b;
  }

  /** The first character `replace` produces, when no occurrence starts the
      string. */
  lemma ReplaceAllHead(s: string, pat: string, rep: string)
    requires |pat| > 0 && s != [] && !OccursAt(s, pat, 0)
    ensures ReplaceAll(s, pat, rep) != [] && ReplaceAll(s, pat, rep)[0] == s[0]
  {
  }

  ghost predicate NoPair(r: string, c: char)
  {
    forall i :: !OccursAt(r, [c, c], i)
  }

  lemma NoPairAfterText(w: string, rest: string, c: char)
    requires c !in w && NoPair(rest, c)
    ensures NoPair(w + rest, c)
  {
    var r := w + rest;
    forall i ensures !OccursAt(r, [c, c], i) {
      if 0 <= i && i + 2 <= |r| {
        if i < |w| {
          assert r[i] == w[i];
        } else {
          assert r[i..i + 2] == rest[i - |w|..i - |w| + 2];
          assert !OccursAt(rest, [c, c], i - |w|);
        }
      }
    }
  }

  lemma NoPairAfterChar(x: char, rest: string, c: char)
    requires NoPair(rest, c) && (x == c && rest != [] ==> rest[0] != c)
    ensures NoPair([x] + rest, c)
  {
    var r := [x] + rest;
    forall i ensures !OccursAt(r, [c, c], i) {
      if 1 <= i && i + 2 <= |r| {
        assert r[i..i + 2] == rest[i - 1..i + 1];
        assert !OccursAt(rest, [c, c], i - 1);
      } else if i == 0 && 2 <= |r| {
        assert r[0] == x && r[1] == rest[0];
      }
    }
  }

  /** Replacing every doubled `c` by a text without `c` leaves no doubled `c`:
      a `c` that survives is never followed by another one. */
  lemma {:induction false} ReplacePairLeavesNoPair(t: string, c: char, rep: string)
    requires |rep| > 0 && c !in rep
    ensures NoPair(ReplaceAll(t, [c, c], rep), c)
    decreases |t|
  {
    var pair := [c, c];
    if t != [] {
      if OccursAt(t, pair, 0) {
        ReplacePairLeavesNoPair(t[2..], c, rep);
        NoPairAfterText(rep, ReplaceAll(t[2..], pair, rep), c);
      } else {
        var rest := ReplaceAll(t[1..], pair, rep);
        ReplacePairLeavesNoPair(t[1..], c, rep);
        if t[0] == c && rest != [] {
          assert t[1] != c;
          assert !OccursAt(t[1..], pair, 0);
          ReplaceAllHead(t[1..], pair, rep);
        }
        NoPairAfterChar(t[0], rest, c);
      }
    }
  }
}
