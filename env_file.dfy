/**
 The text `updateEnvFile` writes to `.env`: the entries of the local
 dictionary, sorted by key with the collation's comparator, each rendered as
 `KEY='VALUE'` without any escaping, joined by single newlines with none at
 the end.

 The collation is a parameter: `leq(a, b)` stands for
 `a.localeCompare(b) <= 0`. The sort is stable, as `Array.prototype.sort` is.
 */
module EnvFile {
  import opened Records

  ghost predicate TotalPreorder(leq: (string, string) -> bool) {
    && (forall a, b :: leq(a, b) || leq(b, a))
    && (forall a, b, c :: leq(a, b) && leq(b, c) ==> leq(a, c))
  }

  ghost predicate Antisymmetric(leq: (string, string) -> bool) {
    forall a, b :: leq(a, b) && leq(b, a) ==> a == b
  }

  predicate Sorted(s: seq<string>, leq: (string, string) -> bool) {
    forall i, j :: 0 <= i < j < |s| ==> leq(s[i], s[j])
  }

  // ---------------------------------------------------------------------------
  // Sorting the keys

  /** Places `k` before the first element it does not exceed. */
  function Insert(k: string, s: seq<string>, leq: (string, string) -> bool): (r: seq<string>)
    ensures multiset(r) == multiset(s) + multiset{k}
    ensures |r| == |s| + 1
    ensures forall x :: x in r <==> x == k || x in s
  {
    if s == [] then [k]
    else if leq(k, s[0]) then [k] + s
    else
      assert s == [s[0]] + s[1..];
      [s[0]] + Insert(k, s[1..], leq)
  }

  function Sort(s: seq<string>, leq: (string, string) -> bool): (r: seq<string>)
    ensures multiset(r) == multiset(s)
    ensures |r| == |s|
    ensures forall x :: x in r <==> x in s
  {
    if s == [] then []
    else
      assert s == [s[0]] + s[1..];
      Insert(s[0], Sort(s[1..], leq), leq)
  }

  lemma {:induction false} InsertSorted(k: string, s: seq<string>, leq: (string, string) -> bool)
    requires TotalPreorder(leq) && Sorted(s, leq)
    ensures Sorted(Insert(k, s, leq), leq)
  {
    if s == [] {
    } else if leq(k, s[0]) {
      var r := [k] + s;
      forall i, j | 0 <= i < j < |r| ensures leq(r[i], r[j]) {
        if i == 0 {
          assert r[j] == s[j - 1];
          if j > 1 { assert leq(s[0], s[j - 1]); }
        } else {
          assert r[i] == s[i - 1] && r[j] == s[j - 1];
        }
      }
    } else {
      var tail := Insert(k, s[1..], leq);
      assert Sorted(s[1..], leq) by {
        assert forall x :: 0 <= x < |s| - 1 ==> s[1..][x] == s[x + 1];
      }
      InsertSorted(k, s[1..], leq);
      forall j | 0 <= j < |tail| ensures leq(s[0], tail[j]) {
        assert tail[j] in tail;
        if tail[j] != k {
          var m :| 0 <= m < |s[1..]| && s[1..][m] == tail[j];
          assert s[m + 1] == tail[j];
        }
      }
      var r := [s[0]] + tail;
      forall i, j | 0 <= i < j < |r| ensures leq(r[i], r[j]) {
        if i == 0 {
          assert r[j] == tail[j - 1];
        } else {
          assert r[i] == tail[i - 1] && r[j] == tail[j - 1];
        }
      }
    }
  }

  /** `x` occurs somewhere before `y` in `r`. */
  ghost predicate Precedes(r: seq<string>, x: string, y: string) {
    exists p, q :: 0 <= p < q < |r| && r[p] == x && r[q] == y
  }

  /** Stability: a key that does not exceed a later key of the input (in
      particular one the collation ties with it) stays ahead of it. */
  lemma {:induction false} SortKeepsOrder(s: seq<string>, leq: (string, string) -> bool, i: nat, j: nat)
    requires i < j < |s| && leq(s[i], s[j])
    ensures Precedes(Sort(s, leq), s[i], s[j])
    decreases |s|
  {
    assert s == [s[0]] + s[1..];
    var t := Sort(s[1..], leq);
    assert s[1..][j - 1] == s[j];
    if i == 0 {
      InsertBefore(s[0], t, s[j], leq);
    } else {
      assert s[1..][i - 1] == s[i];
      SortKeepsOrder(s[1..], leq, i - 1, j - 1);
      InsertKeeps(s[0], t, s[i], s[j], leq);
    }
  }

  lemma {:induction false} InsertBefore(k: string, t: seq<string>, y: string, leq: (string, string) -> bool)
    requires y in t && leq(k, y)
    ensures Precedes(Insert(k, t, leq), k, y)
    decreases |t|
  {
    var r := Insert(k, t, leq);
    if leq(k, t[0]) {
      var q :| 0 <= q < |t| && t[q] == y;
      assert r[0] == k && r[q + 1] == y;
    } else {
      assert t == [t[0]] + t[1..];
      assert y != t[0] && y in t[1..];
      InsertBefore(k, t[1..], y, leq);
      var u := Insert(k, t[1..], leq);
      var p, q :| 0 <= p < q < |u| && u[p] == k && u[q] == y;
      assert r[p + 1] == k && r[q + 1] == y;
    }
  }

  lemma {:induction false} InsertKeeps(k: string, t: seq<string>, x: string, y: string, leq: (string, string) -> bool)
    requires Precedes(t, x, y)
    ensures Precedes(Insert(k, t, leq), x, y)
    decreases |t|
  {
    var p, q :| 0 <= p < q < |t| && t[p] == x && t[q] == y;
    assert t == [t[0]] + t[1..];
    if leq(k, t[0]) {
      PrecedesCons(k, t, x, y);
    } else if p == 0 {
      assert t[1..][q - 1] == y;
      PrecedesHead(Insert(k, t[1..], leq), x, y);
    } else {
      assert t[1..][p - 1] == x && t[1..][q - 1] == y;
      InsertKeeps(k, t[1..], x, y, leq);
      PrecedesCons(t[0], Insert(k, t[1..], leq), x, y);
    }
  }

  lemma PrecedesCons(h: string, u: seq<string>, x: string, y: string)
    requires Precedes(u, x, y)
    ensures Precedes([h] + u, x, y)
  {
    var p, q :| 0 <= p < q < |u| && u[p] == x && u[q] == y;
    assert ([h] + u)[p + 1] == x && ([h] + u)[q + 1] == y;
  }

  lemma PrecedesHead(u: seq<string>, x: string, y: string)
    requires y in u
    ensures Precedes([x] + u, x, y)
  {
    var q :| 0 <= q < |u| && u[q] == y;
    assert ([x] + u)[0] == x && ([x] + u)[q + 1] == y;
  }

  lemma {:induction false} InsertDistinct(k: string, s: seq<string>, leq: (string, string) -> bool)
    requires Distinct(s) && k !in s
    ensures Distinct(Insert(k, s, leq))
  {
    if s != [] && !leq(k, s[0]) {
      var tail := Insert(k, s[1..], leq);
      InsertDistinct(k, s[1..], leq);
      forall j | 0 <= j < |tail| ensures tail[j] != s[0] {
        assert tail[j] in multiset(tail);
        assert tail[j] == k || tail[j] in multiset(s[1..]);
      }
    }
  }

  /** The sorted keys are the keys, each once, in non-decreasing order when
      the comparator is a total preorder. */
  lemma {:induction false} SortSpec(s: seq<string>, leq: (string, string) -> bool)
    ensures TotalPreorder(leq) ==> Sorted(Sort(s, leq), leq)
    ensures Distinct(s) ==> Distinct(Sort(s, leq))
  {
    if s != [] {
      SortSpec(s[1..], leq);
      if TotalPreorder(leq) {
        InsertSorted(s[0], Sort(s[1..], leq), leq);
      }
      if Distinct(s) {
        assert Distinct(s[1..]) by {
          assert forall j :: 0 <= j < |s| - 1 ==> s[1..][j] == s[j + 1];
        }
        assert s[0] !in s[1..] by {
          assert forall j :: 0 <= j < |s| - 1 ==> s[1..][j] == s[j + 1];
        }
        InsertDistinct(s[0], Sort(s[1..], leq), leq);
      }
    }
  }

  /** Under a total order there is only one sorted arrangement of a set of
      keys. */
  lemma {:induction false} SortedUnique(a: seq<string>, b: seq<string>, leq: (string, string) -> bool)
    requires TotalPreorder(leq) && Antisymmetric(leq)
    requires Sorted(a, leq) && Sorted(b, leq) && Distinct(a) && Distinct(b)
    requires forall k :: k in a <==> k in b
    ensures a == b
    decreases |a|
  {
    DistinctCard(a);
    DistinctCard(b);
    assert (set k | k in a) == (set k | k in b);
    if |a| > 0 {
      SortedLeast(a, b[0], leq);
      SortedLeast(b, a[0], leq);
      assert a[0] == b[0];
      SortedTail(a, leq);
      SortedTail(b, leq);
      SortedUnique(a[1..], b[1..], leq);
      assert a == [a[0]] + a[1..] && b == [b[0]] + b[1..];
    }
  }

  /** The first element of a sorted sequence is below all its elements. */
  lemma SortedLeast(a: seq<string>, k: string, leq: (string, string) -> bool)
    requires TotalPreorder(leq) && Sorted(a, leq) && k in a
    ensures leq(a[0], k)
  {
  }

  lemma SortedTail(a: seq<string>, leq: (string, string) -> bool)
    requires Sorted(a, leq) && Distinct(a) && |a| > 0
    ensures Sorted(a[1..], leq) && Distinct(a[1..])
    ensures forall k :: k in a[1..] <==> k in a && k != a[0]
  {
    assert forall x :: 0 <= x < |a| - 1 ==> a[1..][x] == a[x + 1];
    assert a == [a[0]] + a[1..];
  }

  // ---------------------------------------------------------------------------
  // Rendering

  /** One line of the file. */
  function Line(key: string, value: string): string {
    key + "='" + value + "'"
  }

  /** One line per key, in the order given. */
  function Lines(keys: seq<string>, values: map<string, string>): seq<string>
    requires forall k :: k in keys ==> k in values
  {
    seq(|keys|, i requires 0 <= i < |keys| => Line(keys[i], values[keys[i]]))
  }

  /** `Array.prototype.join('\n')`. */
  function Join(lines: seq<string>): string {
    if |lines| == 0 then ""
    else if |lines| == 1 then lines[0]
    else lines[0] + "\n" + Join(lines[1..])
  }

  function SortedKeys(r: Record, leq: (string, string) -> bool): seq<string> {
    Sort(r.keys, leq)
  }

  /** The text written to `.env`. */
  function EnvFileText(r: Record, leq: (string, string) -> bool): string
    requires WellFormed(r)
  {
    Join(Lines(SortedKeys(r, leq), r.values))
  }

  /** The lines are in key order: every entry of the dictionary exactly once,
      in non-decreasing order of keys under a total preorder. */
  lemma EnvFileKeys(r: Record, leq: (string, string) -> bool)
    requires WellFormed(r)
    ensures |SortedKeys(r, leq)| == |r.values|
    ensures Distinct(SortedKeys(r, leq))
    ensures forall k :: k in SortedKeys(r, leq) <==> k in r.values
    ensures TotalPreorder(leq) ==> Sorted(SortedKeys(r, leq), leq)
  {
    SortSpec(r.keys, leq);
    DistinctCard(r.keys);
    assert (set k | k in r.keys) == r.values.Keys;
  }

  lemma {:induction false} DistinctCard(s: seq<string>)
    requires Distinct(s)
    ensures |set k | k in s| == |s|
  {
    if s != [] {
      var init := s[..|s| - 1];
      DistinctInit(s);
      DistinctCard(init);
      assert (set k | k in s) == (set k | k in init) + {s[|s| - 1]};
    }
  }

  /** JavaScript's `split('\n')`: the pieces between newlines. */
  function SplitLines(s: string): (r: seq<string>)
    ensures |r| >= 1
  {
    if s == [] then [""]
    else
      var rest := SplitLines(s[1..]);
      if s[0] == '\n' then [""] + rest else [[s[0]] + rest[0]] + rest[1..]
  }

  lemma {:induction false} SplitNoNewline(a: string, b: string)
    requires '\n' !in a
    ensures SplitLines(a + b) == [a + SplitLines(b)[0]] + SplitLines(b)[1..]
  {
    if a != [] {
      assert (a + b)[1..] == a[1..] + b;
      SplitNoNewline(a[1..], b);
      assert [a[0]] + (a[1..] + SplitLines(b)[0]) == a + SplitLines(b)[0];
    } else {
      assert a + b == b;
      assert a + SplitLines(b)[0] == SplitLines(b)[0];
      assert SplitLines(b) == [SplitLines(b)[0]] + SplitLines(b)[1..];
    }
  }

  /** Splitting the joined lines at newlines gives back the lines, when no
      line holds a newline of its own. */
  lemma {:induction false} SplitJoin(lines: seq<string>)
    requires |lines| > 0
    requires forall i :: 0 <= i < |lines| ==> '\n' !in lines[i]
    ensures SplitLines(Join(lines)) == lines
    decreases |lines|
  {
    if |lines| == 1 {
      SplitNoNewline(lines[0], "");
      assert lines[0] + "" == lines[0];
    } else {
      var rest := Join(lines[1..]);
      SplitJoin(lines[1..]);
      SplitNoNewline(lines[0], "\n" + rest);
      assert ("\n" + rest)[1..] == rest;
      assert SplitLines("\n" + rest) == [""] + lines[1..];
      assert Join(lines) == lines[0] + ("\n" + rest);
      assert lines[0] + "" == lines[0];
      assert lines == [lines[0]] + lines[1..];
    }
  }

  /** One line `KEY='VALUE'` per entry, in sorted key order, separated by
      single newlines: splitting the text at newlines gives exactly the
      lines of the entries, provided no key or value holds a newline (the
      values are not escaped). The empty dictionary gives the empty text. */
  lemma EnvFileLines(r: Record, leq: (string, string) -> bool)
    requires WellFormed(r)
    ensures r.keys == [] ==> EnvFileText(r, leq) == ""
    ensures r.keys != [] && (forall k :: k in r.values ==> '\n' !in k && '\n' !in r.values[k]) ==>
              SplitLines(EnvFileText(r, leq)) == Lines(SortedKeys(r, leq), r.values)
  {
    var lines := Lines(SortedKeys(r, leq), r.values);
    if r.keys != [] && (forall k :: k in r.values ==> '\n' !in k && '\n' !in r.values[k]) {
      forall i | 0 <= i < |lines| ensures '\n' !in lines[i] {
        var k := SortedKeys(r, leq)[i];
        assert lines[i] == k + "='" + r.values[k] + "'";
        assert forall c :: c in lines[i] ==> c in k || c in "='" || c in r.values[k] || c in "'";
      }
      SplitJoin(lines);
    }
  }

  lemma {:induction false} JoinEnds(lines: seq<string>)
    requires |lines| > 0 && |lines[|lines| - 1]| > 0
    ensures |Join(lines)| > 0
    ensures Join(lines)[|Join(lines)| - 1] == lines[|lines| - 1][|lines[|lines| - 1]| - 1]
    decreases |lines|
  {
    if |lines| > 1 {
      JoinEnds(lines[1..]);
    }
  }

  /** A non-empty file ends with the closing quote of its last value: there
      is no trailing newline. */
  lemma EnvFileNoTrailingNewline(r: Record, leq: (string, string) -> bool)
    requires WellFormed(r) && r.keys != []
    ensures |EnvFileText(r, leq)| > 0
    ensures EnvFileText(r, leq)[|EnvFileText(r, leq)| - 1] == '\''
  {
    var lines := Lines(SortedKeys(r, leq), r.values);
    JoinEnds(lines);
  }

  /** The file depends on the dictionary's entries only, not on the order in
      which they were inserted, when the comparator is a total order. */
  lemma EnvFileDeterministic(r1: Record, r2: Record, leq: (string, string) -> bool)
    requires WellFormed(r1) && WellFormed(r2) && r1.values == r2.values
    requires TotalPreorder(leq) && Antisymmetric(leq)
    ensures EnvFileText(r1, leq) == EnvFileText(r2, leq)
  {
    EnvFileKeys(r1, leq);
    EnvFileKeys(r2, leq);
    SortedUnique(SortedKeys(r1, leq), SortedKeys(r2, leq), leq);
  }

  // ---------------------------------------------------------------------------
  // Reading a line back

  function IndexOf(s: string, c: char): (r: Option<nat>)
    ensures r.Some? ==> r.value < |s| && s[r.value] == c && c !in s[..r.value]
    ensures r.None? ==> c !in s
  {
    if s == [] then None
    else if s[0] == c then Some(0)
    else match IndexOf(s[1..], c)
      case None => None
      case Some(i) =>
        assert s[..i + 1] == [s[0]] + s[1..][..i];
        Some(i + 1)
  }

  /** Splits a line at its first `=` and strips the surrounding quotes from
      what follows, keeping everything between them as it stands. */
  function ReadLine(line: string): Option<(string, string)> {
    match IndexOf(line, '=')
    case None => None
    case Some(i) =>
      var rest := line[i + 1..];
      if |rest| >= 2 && rest[0] == '\'' && rest[|rest| - 1] == '\'' then Some((line[..i], rest[1..|rest| - 1]))
      else None
  }

  /** The value goes into its line verbatim: reading the line back gives the
      key and the value unchanged, whatever quotes or `=` the value holds. */
  lemma LineVerbatim(key: string, value: string)
    requires '=' !in key
    ensures ReadLine(Line(key, value)) == Some((key, value))
  {
    var line := Line(key, value);
    assert line[..|key|] == key;
    assert line[|key|] == '=';
    assert IndexOf(line, '=') == Some(|key|);
    assert line[|key| + 1..] == "'" + value + "'";
  }

  // ---------------------------------------------------------------------------
  // Code-point order: a concrete total order standing in for the collation

  predicate LexLeq(a: string, b: string) {
    a == [] || (b != [] && (a[0] < b[0] || (a[0] == b[0] && LexLeq(a[1..], b[1..]))))
  }

  lemma {:induction false} LexTotal(a: string, b: string)
    ensures LexLeq(a, b) || LexLeq(b, a)
  {
    if a != [] && b != [] && a[0] == b[0] {
      LexTotal(a[1..], b[1..]);
    }
  }

  lemma {:induction false} LexTransitive(a: string, b: string, c: string)
    requires LexLeq(a, b) && LexLeq(b, c)
    ensures LexLeq(a, c)
  {
    if a != [] && a[0] == b[0] && b[0] == c[0] {
      LexTransitive(a[1..], b[1..], c[1..]);
    }
  }

  lemma {:induction false} LexAntisymmetric(a: string, b: string)
    requires LexLeq(a, b) && LexLeq(b, a)
    ensures a == b
  {
    if a != [] && b != [] {
      LexAntisymmetric(a[1..], b[1..]);
      assert a == [a[0]] + a[1..] && b == [b[0]] + b[1..];
    }
  }

  /** Lexicographic order is a total order, so every property above holds of
      the file it sorts. */
  lemma LexLeqTotalOrder()
    ensures TotalPreorder(LexLeq) && Antisymmetric(LexLeq)
  {
    forall a, b ensures LexLeq(a, b) || LexLeq(b, a) { LexTotal(a, b); }
    forall a, b, c | LexLeq(a, b) && LexLeq(b, c) ensures LexLeq(a, c) { LexTransitive(a, b, c); }
    forall a, b | LexLeq(a, b) && LexLeq(b, a) ensures a == b { LexAntisymmetric(a, b); }
  }
}
