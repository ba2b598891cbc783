/** The Python string operations the price parsers rely on: `in`, `find`,
    `split`, `replace`, `strip(chars)` and a regular-expression search of the
    form `open(.*?)close`. Strings are sequences of characters. */
module Text {
  import opened Common

  /** `pat` occurs in `s` starting at index `i`. */
  predicate OccursAt(s: string, pat: string, i: nat)
  {
    i <= |s| && pat <= s[i..]
  }

  lemma OccursShift(s: string, pat: string, i: nat)
    requires 0 < |s|
    ensures OccursAt(s[1..], pat, i) <==> OccursAt(s, pat, i + 1)
  {
    if i + 1 <= |s| {
      assert s[1..][i..] == s[i + 1..];
    }
  }

  /** The index of the first occurrence of `pat` in `s` at or after `from`. */
  function FindFrom(s: string, pat: string, from: nat): (r: Option<nat>)
    requires from <= |s|
    ensures r.Some? ==> from <= r.value && r.value + |pat| <= |s|
    decreases |s| - from
  {
    if OccursAt(s, pat, from) then Some(from)
    else if from == |s| then None
    else FindFrom(s, pat, from + 1)
  }

  /** The occurrence found is one, and none starts between `from` and it. */
  lemma {:induction false} FindFromFirst(s: string, pat: string, from: nat)
    requires from <= |s| && FindFrom(s, pat, from).Some?
    ensures OccursAt(s, pat, FindFrom(s, pat, from).value)
    ensures forall j :: from <= j < FindFrom(s, pat, from).value ==> !OccursAt(s, pat, j)
    decreases |s| - from
  {
    if !OccursAt(s, pat, from) {
      FindFromFirst(s, pat, from + 1);
    }
  }

  /** Nothing found means no occurrence starts at or after `from`. */
  lemma {:induction false} FindFromNone(s: string, pat: string, from: nat)
    requires from <= |s| && FindFrom(s, pat, from).None?
    ensures forall j :: from <= j <= |s| ==> !OccursAt(s, pat, j)
    decreases |s| - from
  {
    if from < |s| {
      FindFromNone(s, pat, from + 1);
    }
  }

  /** The index of the first occurrence of `pat` in `s` (Python's `s.find(pat)`,
      with None for -1). */
  function Find(s: string, pat: string): (r: Option<nat>)
    ensures r.Some? ==> r.value + |pat| <= |s|
  {
    FindFrom(s, pat, 0)
  }

  /** `find` gives the first occurrence, and None exactly when there is none. */
  lemma FindSpec(s: string, pat: string)
    ensures Find(s, pat).Some? ==> OccursAt(s, pat, Find(s, pat).value)
    ensures Find(s, pat).Some? ==> forall j :: 0 <= j < Find(s, pat).value ==> !OccursAt(s, pat, j)
    ensures Find(s, pat).None? <==> forall j :: 0 <= j <= |s| ==> !OccursAt(s, pat, j)
  {
    if Find(s, pat).Some? {
      FindFromFirst(s, pat, 0);
    } else {
      FindFromNone(s, pat, 0);
    }
  }

  /** An occurrence with none before it is what `find` returns. */
  lemma FindIs(s: string, pat: string, i: nat)
    requires OccursAt(s, pat, i) && forall j :: 0 <= j < i ==> !OccursAt(s, pat, j)
    ensures Find(s, pat) == Some(i)
  {
    FindSpec(s, pat);
  }

  /** Python's `pat in s`. */
  function Contains(s: string, pat: string): bool
  {
    Find(s, pat).Some?
  }

  /** `pat in s` fails exactly when `pat` occurs nowhere in `s`. */
  lemma NotContains(s: string, pat: string)
    ensures !Contains(s, pat) <==> forall j :: 0 <= j <= |s| ==> !OccursAt(s, pat, j)
  {
    FindSpec(s, pat);
  }

  /** An occurrence inside a prefix of `s` is an occurrence in `s`. */
  lemma OccursInPrefix(s: string, pat: string, n: nat, j: nat)
    requires n <= |s| && OccursAt(s[..n], pat, j)
    ensures OccursAt(s, pat, j)
  {
    assert s[..n][j..] <= s[j..];
  }

  /** Python's `s.split(sep)` for a non-empty separator: the pieces between the
      leftmost non-overlapping occurrences of `sep`. */
  function Split(s: string, sep: string): (parts: seq<string>)
    requires |sep| > 0
    ensures |parts| >= 1
    decreases |s|
  {
    match Find(s, sep)
    case None => [s]
    case Some(i) => [s[..i]] + Split(s[i + |sep|..], sep)
  }

  /** No piece of a split contains the separator. */
  lemma {:induction false} SplitPieces(s: string, sep: string)
    requires |sep| > 0
    ensures forall k :: 0 <= k < |Split(s, sep)| ==> !Contains(Split(s, sep)[k], sep)
    decreases |s|
  {
    var f := Find(s, sep);
    if f.None? {
      assert Split(s, sep) == [s];
    } else {
      var i := f.value;
      var head := s[..i];
      var rest := s[i + |sep|..];
      var parts := Split(rest, sep);
      SplitPieces(rest, sep);
      assert !Contains(head, sep) by {
        FindSpec(s, sep);
        forall j | 0 <= j <= |head| ensures !OccursAt(head, sep, j) {
          if j < i && OccursAt(head, sep, j) {
            OccursInPrefix(s, sep, i, j);
            assert false;
          }
        }
        NotContains(head, sep);
      }
      assert Split(s, sep) == [head] + parts by {
        SplitStep(s, sep, i);
      }
      forall k | 0 <= k < |[head] + parts| ensures !Contains(([head] + parts)[k], sep) {
        if k > 0 {
          assert ([head] + parts)[k] == parts[k - 1];
        }
      }
    }
  }

  /** Python's `sep.join(parts)`. */
  function Join(parts: seq<string>, sep: string): string
  {
    if |parts| == 0 then ""
    else if |parts| == 1 then parts[0]
    else parts[0] + sep + Join(parts[1..], sep)
  }

  lemma JoinCons(head: string, parts: seq<string>, sep: string)
    requires |parts| >= 1
    ensures Join([head] + parts, sep) == head + sep + Join(parts, sep)
  {
    assert ([head] + parts)[1..] == parts;
  }

  /** One step of `Split`: the text before the first separator, then the rest. */
  lemma SplitStep(s: string, sep: string, i: nat)
    requires |sep| > 0 && Find(s, sep) == Some(i)
    ensures Split(s, sep) == [s[..i]] + Split(s[i + |sep|..], sep)
  {
  }

  /** Text is what comes before an occurrence, the occurrence, and what follows. */
  lemma AroundOccurrence(s: string, sep: string, i: nat)
    requires OccursAt(s, sep, i)
    ensures s == s[..i] + sep + s[i + |sep|..]
  {
    assert s[i..i + |sep|] == sep;
  }

  /** Splitting and joining again with the same separator gives back the text. */
  lemma {:induction false} SplitJoin(s: string, sep: string)
    requires |sep| > 0
    ensures Join(Split(s, sep), sep) == s
    decreases |s|
  {
    var f := Find(s, sep);
    if f.Some? {
      var rest := s[f.value + |sep|..];
      SplitJoin(rest, sep);
      SplitStep(s, sep, f.value);
      FindSpec(s, sep);
      AroundOccurrence(s, sep, f.value);
      JoinCons(s[..f.value], Split(rest, sep), sep);
    }
  }

  /** When `a` holds no `c`, the first piece of `a + [c] + b` split at `c` is `a`. */
  lemma SplitAtFirst(a: string, c: char, b: string)
    requires c !in a
    ensures Split(a + [c] + b, [c]) == [a] + Split(b, [c])
  {
    var s := a + [c] + b;
    assert OccursAt(s, [c], |a|);
    forall j | 0 <= j < |a| ensures !OccursAt(s, [c], j) {
      assert s[j] == a[j];
    }
    FindIs(s, [c], |a|);
    assert s[..|a|] == a;
    assert s[|a| + 1..] == b;
  }

  /** Text without `c` split at `c` is one piece. */
  lemma SplitNoSeparator(a: string, c: char)
    requires c !in a
    ensures Split(a, [c]) == [a]
  {
    forall j | 0 <= j <= |a| ensures !OccursAt(a, [c], j) {
      if j < |a| { assert a[j..][0] == a[j]; }
    }
    FindSpec(a, [c]);
  }

  /** Three pieces without `c`, joined by `c`, split back into those pieces. */
  lemma SplitThree(a: string, b: string, d: string, c: char)
    requires c !in a && c !in b && c !in d
    ensures Split(a + [c] + b + [c] + d, [c]) == [a, b, d]
  {
    assert a + [c] + b + [c] + d == a + [c] + (b + [c] + d);
    SplitAtFirst(a, c, b + [c] + d);
    SplitAtFirst(b, c, d);
    SplitNoSeparator(d, c);
  }

  /** Python's `s.replace(pat, repl)` for a non-empty `pat`: every leftmost
      non-overlapping occurrence of `pat` is replaced. */
  function Replace(s: string, pat: string, repl: string): string
    requires |pat| > 0
    decreases |s|
  {
    if pat <= s then repl + Replace(s[|pat|..], pat, repl)
    else if s == [] then []
    else [s[0]] + Replace(s[1..], pat, repl)
  }

  /** A character that starts no occurrence is copied. */
  lemma ReplaceStep(s: string, pat: string, repl: string)
    requires |pat| > 0 && s != [] && !OccursAt(s, pat, 0)
    ensures Replace(s, pat, repl) == [s[0]] + Replace(s[1..], pat, repl)
  {
  }

  /** The first `n` characters, where no occurrence starts, are copied. */
  lemma ReplaceSkipsPrefix(s: string, n: nat, pat: string, repl: string)
    requires |pat| > 0 && n <= |s|
    requires forall j :: 0 <= j < n ==> !OccursAt(s, pat, j)
    ensures Replace(s, pat, repl) == s[..n] + Replace(s[n..], pat, repl)
  {
    assert s[..n] + s[n..] == s;
    ReplaceSkips(s[..n], s[n..], pat, repl);
  }

  /** `replace` copies the text before the first occurrence of `pat`,
      replaces that occurrence and carries on after it. */
  lemma ReplaceFirst(s: string, pat: string, repl: string, i: nat)
    requires |pat| > 0 && OccursAt(s, pat, i)
    requires forall j :: 0 <= j < i ==> !OccursAt(s, pat, j)
    ensures Replace(s, pat, repl) == s[..i] + repl + Replace(s[i + |pat|..], pat, repl)
  {
    var head, tail, after := s[..i], s[i..], Replace(s[i + |pat|..], pat, repl);
    ReplaceSkipsPrefix(s, i, pat, repl);
    assert Replace(tail, pat, repl) == repl + after by {
      assert tail == pat + s[i + |pat|..];
      ReplaceAtFront(s[i + |pat|..], pat, repl);
    }
    assert head + (repl + after) == head + repl + after;
  }

  /** `replace` is `split` followed by `join`: an independent statement of
      which occurrences are replaced. */
  lemma {:induction false} ReplaceIsSplitJoin(s: string, pat: string, repl: string)
    requires |pat| > 0
    ensures Replace(s, pat, repl) == Join(Split(s, pat), repl)
    decreases |s|
  {
    var f := Find(s, pat);
    if f.None? {
      assert Split(s, pat) == [s];
      ReplaceWithoutMatch(s, pat, repl);
    } else {
      var i := f.value;
      var head, rest := s[..i], s[i + |pat|..];
      ReplaceIsSplitJoin(rest, pat, repl);
      assert Replace(s, pat, repl) == head + repl + Replace(rest, pat, repl) by {
        FindSpec(s, pat);
        ReplaceFirst(s, pat, repl, i);
      }
      assert Join(Split(s, pat), repl) == head + repl + Join(Split(rest, pat), repl) by {
        SplitStep(s, pat, i);
        JoinCons(head, Split(rest, pat), repl);
      }
    }
  }

  /** `a` holds no occurrence of `pat` that starts inside it, even one that
      runs on into `b`. */
  predicate NoMatchStartsIn(a: string, b: string, pat: string)
  {
    forall i :: 0 <= i < |a| ==> !OccursAt(a + b, pat, i)
  }

  /** A stretch with no occurrence of `pat` starting in it is copied as is. */
  lemma {:induction false} ReplaceSkips(a: string, b: string, pat: string, repl: string)
    requires |pat| > 0 && NoMatchStartsIn(a, b, pat)
    ensures Replace(a + b, pat, repl) == a + Replace(b, pat, repl)
    decreases |a|
  {
    if a == [] {
      assert a + b == b;
    } else {
      var s := a + b;
      assert !OccursAt(s, pat, 0);
      ReplaceStep(s, pat, repl);
      assert s[1..] == a[1..] + b;
      forall i | 0 <= i < |a[1..]| ensures !OccursAt(a[1..] + b, pat, i) {
        OccursShift(s, pat, i);
      }
      ReplaceSkips(a[1..], b, pat, repl);
      assert a == [a[0]] + a[1..];
    }
  }

  /** Text in which `pat` does not occur is left unchanged. */
  lemma ReplaceWithoutMatch(s: string, pat: string, repl: string)
    requires |pat| > 0 && !Contains(s, pat)
    ensures Replace(s, pat, repl) == s
  {
    NotContains(s, pat);
    forall i | 0 <= i < |s| ensures !OccursAt(s + [], pat, i) {
      assert s + [] == s;
    }
    ReplaceSkips(s, [], pat, repl);
    assert s + [] == s;
  }

  /** A stretch without the first character of `pat` is copied as is. */
  lemma ReplaceSkipsNoHead(a: string, b: string, pat: string, repl: string)
    requires |pat| > 0 && pat[0] !in a
    ensures Replace(a + b, pat, repl) == a + Replace(b, pat, repl)
  {
    forall i | 0 <= i < |a| ensures !OccursAt(a + b, pat, i) {
      assert (a + b)[i..][0] == a[i];
    }
    ReplaceSkips(a, b, pat, repl);
  }

  /** An occurrence of `pat` at the front is replaced by `repl`. */
  lemma ReplaceAtFront(b: string, pat: string, repl: string)
    requires |pat| > 0
    ensures Replace(pat + b, pat, repl) == repl + Replace(b, pat, repl)
  {
    assert (pat + b)[|pat|..] == b;
  }

  /** Text that lacks one of the characters of `pat` is left unchanged. */
  lemma ReplaceAbsentChar(s: string, pat: string, repl: string, k: nat)
    requires k < |pat| && pat[k] !in s
    ensures Replace(s, pat, repl) == s
  {
    forall j | 0 <= j <= |s| ensures !OccursAt(s, pat, j) {
    }
    NotContains(s, pat);
    ReplaceWithoutMatch(s, pat, repl);
  }

  /** A single occurrence of `pat`, with its first character nowhere else,
      is replaced. */
  lemma ReplaceOnce(a: string, pat: string, b: string, repl: string)
    requires |pat| > 0 && pat[0] !in a && pat[0] !in b
    ensures Replace(a + pat + b, pat, repl) == a + repl + b
  {
    var rest := pat + b;
    assert a + pat + b == a + rest;
    assert Replace(a + rest, pat, repl) == a + Replace(rest, pat, repl) by {
      ReplaceSkipsNoHead(a, rest, pat, repl);
    }
    assert Replace(rest, pat, repl) == repl + b by {
      ReplaceAtFront(b, pat, repl);
      ReplaceAbsentChar(b, pat, repl, 0);
    }
    assert a + (repl + b) == a + repl + b;
  }

  /** The first occurrence of `pat` after a character `c` and a stretch `a`
      that cannot start one is replaced. */
  lemma ReplaceFirstAfter(c: char, a: string, pat: string, b: string, repl: string)
    requires |pat| >= 2 && a != [] && a[0] != pat[1] && pat[0] !in a
    ensures Replace([c] + a + pat + b, pat, repl) == [c] + a + repl + Replace(b, pat, repl)
  {
    var s := [c] + a + pat + b;
    var after := Replace(b, pat, repl);
    assert Replace(s, pat, repl) == [c] + Replace(a + (pat + b), pat, repl) by {
      assert s[1] != pat[1];
      ReplaceStep(s, pat, repl);
      assert s[1..] == a + (pat + b);
    }
    assert Replace(a + (pat + b), pat, repl) == a + (repl + after) by {
      ReplaceSkipsNoHead(a, pat + b, pat, repl);
      ReplaceAtFront(b, pat, repl);
    }
    assert [c] + (a + (repl + after)) == [c] + a + repl + after;
  }

  /** No occurrence of `pat` starts in text that lacks its first character. */
  lemma NoMatchWithoutHead(a: string, b: string, pat: string)
    requires pat != [] && pat[0] !in a
    ensures NoMatchStartsIn(a, b, pat)
  {
    forall i | 0 <= i < |a| ensures !OccursAt(a + b, pat, i) {
      assert (a + b)[i] == a[i];
    }
  }

  /** Every character of `s` is in `cs`. */
  predicate AllIn(s: string, cs: set<char>)
  {
    forall k :: 0 <= k < |s| ==> s[k] in cs
  }

  /** `s` with every character in `cs` removed from its front (Python's `lstrip(chars)`). */
  function StripLeft(s: string, cs: set<char>): (r: string)
    ensures |r| <= |s| && r == s[|s| - |r|..]
    ensures forall k :: 0 <= k < |s| - |r| ==> s[k] in cs
    ensures r != [] ==> r[0] !in cs
  {
    if s != [] && s[0] in cs then StripLeft(s[1..], cs) else s
  }

  /** `s` with every character in `cs` removed from its end (Python's `rstrip(chars)`). */
  function StripRight(s: string, cs: set<char>): (r: string)
    ensures |r| <= |s| && r == s[..|r|]
    ensures forall k :: |r| <= k < |s| ==> s[k] in cs
    ensures r != [] ==> r[|r| - 1] !in cs
  {
    if s != [] && s[|s| - 1] in cs then StripRight(s[..|s| - 1], cs) else s
  }

  /** Python's `s.strip(chars)`: `chars` is a SET of characters, removed from
      both ends for as long as they last; it is not a prefix or a suffix. */
  function Strip(s: string, cs: set<char>): string
  {
    StripRight(StripLeft(s, cs), cs)
  }

  /** What `strip` keeps is a stretch of the text, with only characters of
      `cs` before and after it, and it neither begins nor ends with one. */
  lemma StripTrims(s: string, cs: set<char>)
    ensures var r := Strip(s, cs);
            (exists i :: 0 <= i <= |s| && OccursAt(s, r, i) && AllIn(s[..i], cs) && AllIn(s[i + |r|..], cs))
            && (r != [] ==> r[0] !in cs && r[|r| - 1] !in cs)
  {
    var left := StripLeft(s, cs);
    var r := StripRight(left, cs);
    var i := |s| - |left|;
    assert left == s[i..];
    assert s[i..][..|r|] == r;
    assert OccursAt(s, r, i);
    assert AllIn(s[..i], cs);
    assert s[i + |r|..] == left[|r|..];
    assert AllIn(s[i + |r|..], cs);
  }

  /** Text whose two ends are outside `cs` is left as it is by `strip`. */
  lemma StripKeeps(s: string, cs: set<char>)
    requires s != [] && s[0] !in cs && s[|s| - 1] !in cs
    ensures Strip(s, cs) == s
  {
    assert StripLeft(s, cs) == s;
    assert StripRight(s, cs) == s;
  }

  /** Leading characters of `cs` are removed up to the first one outside it. */
  lemma {:induction false} StripLeftSkips(a: string, rest: string, cs: set<char>)
    requires AllIn(a, cs) && rest != [] && rest[0] !in cs
    ensures StripLeft(a + rest, cs) == rest
    decreases |a|
  {
    if a == [] {
      assert a + rest == rest;
    } else {
      assert (a + rest)[0] == a[0];
      assert (a + rest)[1..] == a[1..] + rest;
      assert AllIn(a[1..], cs) by {
        forall k | 0 <= k < |a[1..]| ensures a[1..][k] in cs {
          assert a[1..][k] == a[k + 1];
        }
      }
      StripLeftSkips(a[1..], rest, cs);
    }
  }

  /** Trailing characters of `cs` are removed back to the last one outside it. */
  lemma {:induction false} StripRightSkips(rest: string, c: string, cs: set<char>)
    requires AllIn(c, cs) && rest != [] && rest[|rest| - 1] !in cs
    ensures StripRight(rest + c, cs) == rest
    decreases |c|
  {
    if c == [] {
      assert rest + c == rest;
    } else {
      var s := rest + c;
      assert s[|s| - 1] == c[|c| - 1];
      var init := c[..|c| - 1];
      assert s[..|s| - 1] == rest + init;
      assert AllIn(init, cs) by {
        forall k | 0 <= k < |init| ensures init[k] in cs {
          assert init[k] == c[k];
        }
      }
      StripRightSkips(rest, init, cs);
    }
  }

  /** `strip` removes exactly the runs of `cs` characters around a middle
      that begins and ends outside `cs`. */
  lemma StripBetween(a: string, b: string, c: string, cs: set<char>)
    requires AllIn(a, cs) && AllIn(c, cs) && b != [] && b[0] !in cs && b[|b| - 1] !in cs
    ensures Strip(a + b + c, cs) == b
  {
    assert a + b + c == a + (b + c);
    StripLeftSkips(a, b + c, cs);
    StripRightSkips(b, c, cs);
  }

  // ----- re.search('open(.*?)close', s) -----

  /** Where the lazy group that begins at `from` can end: the first `close` at
      or after `from`, provided no newline comes before it. This follows
      CPython, whose `.` does not match a newline. */
  function CloseAfter(s: string, close: string, from: nat): (r: Option<nat>)
    requires from <= |s|
    ensures r.Some? ==> from <= r.value <= |s| && OccursAt(s, close, r.value)
    decreases |s| - from
  {
    if close <= s[from..] then Some(from)
    else if from == |s| || s[from] == '\n' then None
    else CloseAfter(s, close, from + 1)
  }

  /** The group ends at the first `close`, and no newline comes before it. */
  lemma {:induction false} CloseAfterIsFirst(s: string, close: string, from: nat)
    requires from <= |s| && CloseAfter(s, close, from).Some?
    ensures forall k :: from <= k < CloseAfter(s, close, from).value ==>
              s[k] != '\n' && !OccursAt(s, close, k)
    decreases |s| - from
  {
    if !(close <= s[from..]) {
      CloseAfterIsFirst(s, close, from + 1);
    }
  }

  /** The group the pattern captures when its match starts at `p`, if one does. */
  function MatchAt(s: string, open: string, close: string, p: nat): Option<string>
  {
    if p > |s| then None else
    if OccursAt(s, open, p) then
      match CloseAfter(s, close, p + |open|)
      case None => None
      case Some(j) => Some(s[p + |open|..j])
    else None
  }

  /** Where the leftmost match at or after `from` starts. */
  function MatchFrom(s: string, open: string, close: string, from: nat): (p: Option<nat>)
    requires from <= |s|
    ensures p.Some? ==> from <= p.value <= |s|
    decreases |s| - from
  {
    if MatchAt(s, open, close, from).Some? then Some(from)
    else if from == |s| then None
    else MatchFrom(s, open, close, from + 1)
  }

  /** The match found starts at a position that starts a match. */
  lemma {:induction false} MatchFromFound(s: string, open: string, close: string, from: nat)
    requires from <= |s| && MatchFrom(s, open, close, from).Some?
    ensures MatchAt(s, open, close, MatchFrom(s, open, close, from).value).Some?
    decreases |s| - from
  {
    if MatchAt(s, open, close, from).None? {
      MatchFromFound(s, open, close, from + 1);
    }
  }

  /** No match found means no position at or after `from` starts one. */
  lemma {:induction false} MatchFromNone(s: string, open: string, close: string, from: nat)
    requires from <= |s| && MatchFrom(s, open, close, from).None?
    ensures forall q :: from <= q <= |s| ==> MatchAt(s, open, close, q).None?
    decreases |s| - from
  {
    if from < |s| {
      MatchFromNone(s, open, close, from + 1);
    }
  }

  /** The leftmost position that starts a match is the one found. */
  lemma {:induction false} MatchFromLeftmost(s: string, open: string, close: string, from: nat, p: nat)
    requires from <= p <= |s| && MatchAt(s, open, close, p).Some?
    requires forall q :: from <= q < p ==> MatchAt(s, open, close, q).None?
    ensures MatchFrom(s, open, close, from) == Some(p)
    decreases p - from
  {
    if from < p {
      MatchFromLeftmost(s, open, close, from + 1, p);
    }
  }

  /** Python's `re.search('open(.*?)close', s).group(1)`, None when nothing
      matches: the group of the match that starts leftmost. */
  function Search(s: string, open: string, close: string): Option<string>
  {
    var p := MatchFrom(s, open, close, 0);
    if p.None? then None else MatchAt(s, open, close, p.value)
  }

  /** The search fails exactly when no position starts a match. */
  lemma SearchFails(s: string, open: string, close: string)
    ensures Search(s, open, close).None? <==> forall p :: 0 <= p <= |s| ==> MatchAt(s, open, close, p).None?
  {
    if MatchFrom(s, open, close, 0).Some? {
      MatchFromFound(s, open, close, 0);
    } else {
      MatchFromNone(s, open, close, 0);
    }
  }

  /** The search captures the group of a match with none starting before it. */
  lemma SearchLeftmost(s: string, open: string, close: string, p: nat, g: string)
    requires MatchAt(s, open, close, p) == Some(g)
    requires forall q :: 0 <= q < p ==> MatchAt(s, open, close, q).None?
    ensures Search(s, open, close) == Some(g)
  {
    MatchFromLeftmost(s, open, close, 0, p);
  }

  /** The lazy group ends at the first `close` when no newline comes before it. */
  lemma {:induction false} CloseAfterFinds(s: string, close: string, from: nat, j: nat)
    requires from <= j <= |s| && OccursAt(s, close, j)
    requires forall k :: from <= k < j ==> s[k] != '\n' && !OccursAt(s, close, k)
    ensures CloseAfter(s, close, from) == Some(j)
    decreases j - from
  {
    if from < j {
      CloseAfterFinds(s, close, from + 1, j);
    }
  }

  /** A character of the group `g` is not a newline and starts no `close`
      in the whole text when it starts none in `g + close + b`. */
  lemma GroupChar(pre: string, g: string, close: string, b: string, k: nat)
    requires |pre| <= k < |pre| + |g| && g[k - |pre|] != '\n'
    requires !OccursAt(g + (close + b), close, k - |pre|)
    ensures (pre + g + close + b)[k] != '\n' && !OccursAt(pre + g + close + b, close, k)
  {
    var s := pre + g + close + b;
    assert s[k] == g[k - |pre|];
    assert s[k..] == (g + (close + b))[k - |pre|..];
  }

  /** After `pre`, the group `g` ends at the `close` that follows it when `g`
      holds no newline and no `close` starts inside it. */
  lemma CloseAfterGroup(pre: string, g: string, close: string, b: string)
    requires '\n' !in g
    requires NoMatchStartsIn(g, close + b, close)
    ensures CloseAfter(pre + g + close + b, close, |pre|) == Some(|pre| + |g|)
  {
    var s := pre + g + close + b;
    var from, j := |pre|, |pre| + |g|;
    forall k | from <= k < j ensures s[k] != '\n' && !OccursAt(s, close, k) {
      GroupChar(pre, g, close, b, k);
    }
    assert s[j..] == close + b;
    CloseAfterFinds(s, close, from, j);
  }

  /** A match that starts right after `a` captures `g`. */
  lemma MatchAtGroup(a: string, open: string, g: string, close: string, b: string)
    requires '\n' !in g
    requires NoMatchStartsIn(g, close + b, close)
    ensures MatchAt(a + open + g + close + b, open, close, |a|) == Some(g)
  {
    var s := a + open + g + close + b;
    assert s[|a|..] == open + (g + close + b);
    CloseAfterGroup(a + open, g, close, b);
    assert s[|a| + |open|..|a| + |open| + |g|] == g;
  }

  /** In `a + open + g + close + b`, the search captures `g` when `open` does
      not occur earlier, `g` holds no newline and `close` does not occur in
      `g` or straddle its end. */
  lemma SearchFinds(a: string, open: string, g: string, close: string, b: string)
    requires forall i :: 0 <= i < |a| ==> !OccursAt(a + open + g + close + b, open, i)
    requires '\n' !in g
    requires NoMatchStartsIn(g, close + b, close)
    ensures Search(a + open + g + close + b, open, close) == Some(g)
  {
    var s := a + open + g + close + b;
    MatchAtGroup(a, open, g, close, b);
    forall q | 0 <= q < |a| ensures MatchAt(s, open, close, q).None? {
      assert !OccursAt(s, open, q);
    }
    SearchLeftmost(s, open, close, |a|, g);
  }
}
