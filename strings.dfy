/**
 * The `java.lang.String` operations the probes scan text with, on ASCII
 * text: `indexOf`, `contains`, `toLowerCase`, `trim`, the `\s+` to " "
 * replacement, and the character classes of `java.lang.Character`.
 */
module Strings {

  /** `pat` occurs in `s` starting at index `i`. */
  predicate OccursAt(s: string, pat: string, i: int)
  {
    0 <= i && i + |pat| <= |s| && s[i..i + |pat|] == pat
  }

  /**
   * `s.indexOf(pat, from)` for a non-empty `pat`: the first occurrence at or
   * after `from` (a negative `from` searches from 0), or -1 when there is none.
   */
  function IndexOf(s: string, pat: string, from: int): (r: int)
    requires |pat| > 0
    ensures r == -1 || (r >= from && OccursAt(s, pat, r))
    ensures forall i {:trigger OccursAt(s, pat, i)} :: from <= i && (r == -1 || i < r) ==> !OccursAt(s, pat, i)
    decreases |s| - from
  {
    if from < 0 then IndexOf(s, pat, 0)
    else if from + |pat| > |s| then -1
    else if s[from..from + |pat|] == pat then from
    else IndexOf(s, pat, from + 1)
  }

  /** A one-character pattern occurs exactly where that character is. */
  lemma OccursAtChar(s: string, c: char, i: int)
    ensures OccursAt(s, [c], i) <==> 0 <= i < |s| && s[i] == c
  {
    if 0 <= i < |s| && s[i] == c {
      assert s[i..i + 1] == [c];
    }
  }

  /** `pat` occurs at `at` and nowhere before: what `s.indexOf(pat)` finds. */
  predicate FirstAt(s: string, pat: string, at: nat)
  {
    OccursAt(s, pat, at) && forall i :: 0 <= i < at ==> !OccursAt(s, pat, i)
  }

  /** No double quote in `s`. */
  predicate Unquoted(s: string)
  {
    forall k :: 0 <= k < |s| ==> s[k] != '"'
  }

  /** `"\"" + key + "\""`: a JSON key as the probes search for it. */
  function Quoted(key: string): (q: string)
    ensures |q| == |key| + 2 && q[0] == '"' && q[1..|q| - 1] == key && q[|q| - 1] == '"'
  {
    "\"" + key + "\""
  }

  /** Where `indexOf("\"", from)` finds nothing before `to`, the text between holds no '"'. */
  lemma UnquotedBetween(s: string, from: nat, to: nat)
    requires from <= to <= |s|
    requires forall i {:trigger OccursAt(s, "\"", i)} :: from <= i < to ==> !OccursAt(s, "\"", i)
    ensures Unquoted(s[from..to])
  {
    forall k | from <= k < to
      ensures s[k] != '"'
    {
      OccursAtChar(s, '"', k);
    }
  }

  /** One character that differs from the pattern's rules out an occurrence. */
  lemma MismatchAt(s: string, pat: string, i: nat, k: nat)
    requires k < |pat| && i + k < |s| && s[i + k] != pat[k]
    ensures !OccursAt(s, pat, i)
  {
  }

  /**
   * No occurrence of `pat` starts where its character at offset `k` would
   * fall inside `w`, when `w` lacks that character.
   */
  lemma NoOccurrenceAcross(x: string, w: string, y: string, pat: string, k: nat)
    requires k < |pat| && pat[k] !in w
    ensures forall i :: 0 <= i && |x| - k <= i < |x| + |w| - k ==> !OccursAt(x + w + y, pat, i)
  {
    var s := x + w + y;
    forall i | 0 <= i && |x| - k <= i < |x| + |w| - k
      ensures !OccursAt(s, pat, i)
    {
      assert s[i + k] == w[i + k - |x|];
      MismatchAt(s, pat, i, k);
    }
  }

  /**
   * Just before an occurrence of `pat`: no earlier occurrence starts where
   * its character at offset `k` would fall inside `w` or inside the first
   * `k` characters of that occurrence, when neither holds that character.
   */
  lemma NoOccurrenceUpTo(x: string, w: string, pat: string, z: string, k: nat)
    requires k < |pat| && pat[k] !in w && pat[k] !in pat[..k]
    ensures forall i :: 0 <= i && |x| - k <= i < |x| + |w| ==> !OccursAt(x + w + pat + z, pat, i)
  {
    var s := x + w + pat + z;
    forall i | 0 <= i && |x| - k <= i < |x| + |w|
      ensures !OccursAt(s, pat, i)
    {
      if i + k < |x| + |w| {
        assert s[i + k] == w[i + k - |x|];
      } else {
        assert s[i + k] == pat[..k][i + k - |x| - |w|];
      }
      MismatchAt(s, pat, i, k);
    }
  }

  /**
   * `pat` right after `u + w` is its first occurrence when `u` lacks its
   * character at offset `j` and `w` its character at offset `k`, with
   * `j <= k` and that character not among the first `k` of `pat`.
   */
  lemma FirstOccurrenceAfter(u: string, w: string, pat: string, z: string, j: nat, k: nat)
    requires j <= k < |pat| && pat[j] !in u && pat[k] !in w && pat[k] !in pat[..k]
    ensures FirstAt(u + w + pat + z, pat, |u| + |w|)
  {
    var s := u + w + pat + z;
    assert "" + u + (w + pat + z) == s;
    NoOccurrenceAcross("", u, w + pat + z, pat, j);
    NoOccurrenceUpTo(u, w, pat, z, k);
    assert s[|u| + |w|..|u| + |w| + |pat|] == pat;
  }

  /** The first '"' at or after `from` is the one at `at` when none comes between. */
  lemma FirstQuote(s: string, from: nat, at: nat)
    requires from <= at < |s| && s[at] == '"'
    requires forall k :: from <= k < at ==> s[k] != '"'
    ensures IndexOf(s, "\"", from) == at
  {
    forall i | from <= i < at
      ensures !OccursAt(s, "\"", i)
    {
      OccursAtChar(s, '"', i);
    }
    OccursAtChar(s, '"', at);
    IndexOfFinds(s, "\"", from, at);
  }

  /** `s.contains(pat)` for a non-empty `pat`. */
  predicate Contains(s: string, pat: string)
    requires |pat| > 0
  {
    IndexOf(s, pat, 0) >= 0
  }

  lemma ContainsIff(s: string, pat: string)
    requires |pat| > 0
    ensures Contains(s, pat) <==> exists i :: OccursAt(s, pat, i)
  {
  }

  /** An occurrence at `k` with none in `from..k` is what `indexOf` finds. */
  lemma IndexOfFinds(s: string, pat: string, from: int, k: int)
    requires |pat| > 0 && from <= k && OccursAt(s, pat, k)
    requires forall i :: from <= i < k ==> !OccursAt(s, pat, i)
    ensures IndexOf(s, pat, from) == k
  {
  }

  /** `Character.toLowerCase` on ASCII. */
  function LowerChar(c: char): char
  {
    if 'A' <= c <= 'Z' then (c as int + 32) as char else c
  }

  /** `s.toLowerCase()` on ASCII: same length, each letter lowered in place. */
  function ToLower(s: string): (r: string)
    ensures |r| == |s|
    ensures forall i :: 0 <= i < |s| ==> r[i] == LowerChar(s[i])
  {
    seq(|s|, i requires 0 <= i < |s| => LowerChar(s[i]))
  }

  /** Lowering works piece by piece. */
  lemma ToLowerAppend(a: string, b: string)
    ensures ToLower(a + b) == ToLower(a) + ToLower(b)
  {
  }

  /** Text lowers to `t` when it does so character by character. */
  lemma LowersTo(s: string, t: string)
    requires |s| == |t| && forall i :: 0 <= i < |s| ==> LowerChar(s[i]) == t[i]
    ensures ToLower(s) == t
  {
  }

  /** Lowering is idempotent: lowered text has no upper-case letter left. */
  lemma ToLowerIdempotent(s: string)
    ensures ToLower(ToLower(s)) == ToLower(s)
  {
    var t := ToLower(s);
    forall i | 0 <= i < |s|
      ensures ToLower(t)[i] == t[i]
    {
      assert 'a' <= t[i] <= 'z' || !('A' <= s[i] <= 'Z');
    }
  }

  /** An occurrence survives lowering both the text and the pattern. */
  lemma LowerOccurs(s: string, pat: string, i: int)
    requires OccursAt(s, pat, i)
    ensures OccursAt(ToLower(s), ToLower(pat), i)
  {
    var ls := ToLower(s);
    forall k | 0 <= k < |pat|
      ensures ls[i..i + |pat|][k] == ToLower(pat)[k]
    {
      assert s[i + k] == s[i..i + |pat|][k];
    }
  }

  /** The characters `trim()` removes: every code point up to and including ' '. */
  predicate IsTrimmable(c: char)
  {
    c <= ' '
  }

  /** Drops the leading trimmable characters: the longest suffix that does not start with one. */
  function TrimStart(s: string): (r: string)
    ensures |r| <= |s| && r == s[|s| - |r|..]
    ensures forall i :: 0 <= i < |s| - |r| ==> IsTrimmable(s[i])
    ensures r == [] || !IsTrimmable(r[0])
  {
    if s != [] && IsTrimmable(s[0]) then TrimStart(s[1..]) else s
  }

  /** Drops the trailing trimmable characters: the longest prefix that does not end with one. */
  function TrimEnd(s: string): (r: string)
    ensures |r| <= |s| && r == s[..|r|]
    ensures forall i :: |r| <= i < |s| ==> IsTrimmable(s[i])
    ensures r == [] || !IsTrimmable(r[|r| - 1])
  {
    if s != [] && IsTrimmable(s[|s| - 1]) then TrimEnd(s[..|s| - 1]) else s
  }

  /** Every character of `x` is trimmable. */
  predicate TrimmableOnly(x: string)
  {
    forall k :: 0 <= k < |x| ==> IsTrimmable(x[k])
  }

  /**
   * `s.trim()`: `s` without its leading and trailing characters up to ' ';
   * the result neither starts nor ends with one. `TrimSlice` says which
   * slice of `s` it is.
   */
  function Trim(s: string): (r: string)
    ensures |r| <= |s|
    ensures r == [] || (!IsTrimmable(r[0]) && !IsTrimmable(r[|r| - 1]))
  {
    TrimEnd(TrimStart(s))
  }

  /**
   * `r` is the slice of `s` that starts at `a`, and only trimmable
   * characters lie before and after it.
   */
  predicate TrimmedAt(s: string, a: nat, r: string)
  {
    a + |r| <= |s| && r == s[a..a + |r|]
    && TrimmableOnly(s[..a]) && TrimmableOnly(s[a + |r|..])
  }

  /**
   * The trimmed text is the slice of `s` that starts at its first
   * character other than a trimmable one, with only trimmable characters
   * before and after it.
   */
  lemma TrimSlice(s: string)
    ensures TrimmedAt(s, |s| - |TrimStart(s)|, Trim(s))
  {
    var t := TrimStart(s);
    var r := TrimEnd(t);
    assert Trim(s) == r;
    TrimmedSlice(s, t, r);
  }

  /**
   * A prefix `r` of a suffix `t` of `s`, where what lies before `t` and what
   * follows `r` in `t` is trimmable, is `s` trimmed at the start of `t`.
   */
  lemma TrimmedSlice(s: string, t: string, r: string)
    requires |t| <= |s| && t == s[|s| - |t|..] && |r| <= |t| && r == t[..|r|]
    requires forall i :: 0 <= i < |s| - |t| ==> IsTrimmable(s[i])
    requires forall i :: |r| <= i < |t| ==> IsTrimmable(t[i])
    ensures TrimmedAt(s, |s| - |t|, r)
  {
    PrefixOfSuffix(s, t, r);
    TrimmableBefore(s, |s| - |t|);
    TrimmableFrom(t, |r|);
  }

  lemma TrimmableBefore(x: string, n: nat)
    requires n <= |x| && forall i :: 0 <= i < n ==> IsTrimmable(x[i])
    ensures TrimmableOnly(x[..n])
  {
  }

  lemma TrimmableFrom(x: string, n: nat)
    requires n <= |x| && forall i :: n <= i < |x| ==> IsTrimmable(x[i])
    ensures TrimmableOnly(x[n..])
  {
    forall k | 0 <= k < |x| - n
      ensures IsTrimmable(x[n..][k])
    {
      assert x[n..][k] == x[n + k];
    }
  }

  /** A prefix `r` of a suffix `t` of `s` is a slice of `s`, and the rest of `t` is the rest of `s`. */
  lemma PrefixOfSuffix(s: string, t: string, r: string)
    requires |t| <= |s| && t == s[|s| - |t|..] && |r| <= |t| && r == t[..|r|]
    ensures var a := |s| - |t|; r == s[a..a + |r|] && s[a + |r|..] == t[|r|..]
  {
  }

  /** Leading trimmable characters are dropped up to the first other one. */
  lemma {:induction false} TrimStartSkips(pre: string, t: string)
    requires forall k :: 0 <= k < |pre| ==> IsTrimmable(pre[k])
    requires t == [] || !IsTrimmable(t[0])
    ensures TrimStart(pre + t) == t
    decreases |pre|
  {
    if pre == [] {
      assert pre + t == t;
    } else {
      assert (pre + t)[1..] == pre[1..] + t;
      TrimStartSkips(pre[1..], t);
    }
  }

  /** Trailing trimmable characters are dropped back to the last other one. */
  lemma {:induction false} TrimEndSkips(t: string, post: string)
    requires forall k :: 0 <= k < |post| ==> IsTrimmable(post[k])
    requires t == [] || !IsTrimmable(t[|t| - 1])
    ensures TrimEnd(t + post) == t
    decreases |post|
  {
    if post == [] {
      assert t + post == t;
    } else {
      var p := post[..|post| - 1];
      assert (t + post)[..|t + post| - 1] == t + p;
      TrimEndSkips(t, p);
    }
  }

  /** Text with trimmable padding around it trims to the text. */
  lemma TrimPadded(pre: string, w: string, post: string)
    requires forall k :: 0 <= k < |pre| ==> IsTrimmable(pre[k])
    requires forall k :: 0 <= k < |post| ==> IsTrimmable(post[k])
    requires w != [] && !IsTrimmable(w[0]) && !IsTrimmable(w[|w| - 1])
    ensures Trim(pre + w + post) == w
  {
    assert pre + w + post == pre + (w + post);
    TrimStartSkips(pre, w + post);
    TrimEndSkips(w, post);
  }

  /** Trimming twice is trimming once. */
  lemma TrimIdempotent(s: string)
    ensures Trim(Trim(s)) == Trim(s)
  {
    var t := Trim(s);
    if t != [] {
      assert TrimStart(t) == t;
      assert TrimEnd(t) == t;
    }
  }

  /** The characters `\s` matches in a `java.util.regex` pattern. */
  predicate IsRegexSpace(c: char)
  {
    c == ' ' || c == '\t' || c == '\n' || c == '\U{B}' || c == '\U{C}' || c == '\r'
  }

  /** `s` with every `\s` character removed. */
  function NonSpace(s: string): string
  {
    if s == [] then [] else (if IsRegexSpace(s[0]) then [] else [s[0]]) + NonSpace(s[1..])
  }

  /** Drops a leading run of `\s` characters. */
  function DropSpaces(s: string): (r: string)
    ensures |r| <= |s| && r == s[|s| - |r|..]
    ensures r == [] || !IsRegexSpace(r[0])
    ensures NonSpace(r) == NonSpace(s)
  {
    if s != [] && IsRegexSpace(s[0]) then DropSpaces(s[1..]) else s
  }

  /**
   * `s.replaceAll("\\s+", " ")`: every maximal run of `\s` characters becomes
   * one ' '. The only `\s` character left is ' ', no two are adjacent, the
   * other characters are kept in their order, and nothing gets longer.
   * `CollapseWord` and `CollapseJoin` below say where the spaces stand.
   */
  function CollapseSpaces(s: string): (r: string)
    ensures |r| <= |s|
    ensures (r == []) == (s == [])
    ensures s != [] ==> (IsRegexSpace(r[0]) <==> IsRegexSpace(s[0]))
    ensures forall i :: 0 <= i < |r| && IsRegexSpace(r[i]) ==> r[i] == ' '
    ensures forall i :: 0 <= i < |r| - 1 && r[i] == ' ' ==> r[i + 1] != ' '
    ensures NonSpace(r) == NonSpace(s)
    decreases |s|
  {
    if s == [] then []
    else if IsRegexSpace(s[0]) then
      var rest := CollapseSpaces(DropSpaces(s));
      assert NonSpace([' '] + rest) == NonSpace(rest);
      [' '] + rest
    else
      var rest := CollapseSpaces(s[1..]);
      assert NonSpace([s[0]] + rest) == [s[0]] + NonSpace(rest);
      [s[0]] + rest
  }

  /** Text without `\s` characters is left as it is. */
  lemma {:induction false} CollapseWord(w: string)
    requires forall k :: 0 <= k < |w| ==> !IsRegexSpace(w[k])
    ensures CollapseSpaces(w) == w
    decreases |w|
  {
    if w != [] {
      CollapseWord(w[1..]);
      assert w == [w[0]] + w[1..];
    }
  }

  /** A leading run of `\s` characters is dropped up to the first other character. */
  lemma {:induction false} DropRun(sp: string, w: string)
    requires forall k :: 0 <= k < |sp| ==> IsRegexSpace(sp[k])
    requires w == [] || !IsRegexSpace(w[0])
    ensures DropSpaces(sp + w) == w
    decreases |sp|
  {
    if sp != [] {
      assert (sp + w)[1..] == sp[1..] + w;
      DropRun(sp[1..], w);
    } else {
      assert sp + w == w;
    }
  }

  /** Dropping leading `\s` characters stops inside `w` when `w` ends with another character. */
  lemma {:induction false} DropSpacesAppend(w: string, t: string)
    requires w != [] && !IsRegexSpace(w[|w| - 1])
    ensures DropSpaces(w + t) == DropSpaces(w) + t
    decreases |w|
  {
    if IsRegexSpace(w[0]) {
      assert (w + t)[1..] == w[1..] + t;
      DropSpacesAppend(w[1..], t);
    }
  }

  lemma Regroup(a: string, b: string, c: string, d: string)
    ensures a + (b + c + d) == a + b + c + d
  {
  }

  /**
   * A run of `\s` characters between two pieces of text, neither of which
   * has a `\s` character at the joint, becomes one ' ' between the two
   * collapsed pieces.
   */
  lemma {:induction false} CollapseJoin(w1: string, sp: string, w2: string)
    requires sp != [] && forall k :: 0 <= k < |sp| ==> IsRegexSpace(sp[k])
    requires w1 == [] || !IsRegexSpace(w1[|w1| - 1])
    requires w2 == [] || !IsRegexSpace(w2[0])
    ensures CollapseSpaces(w1 + sp + w2) == CollapseSpaces(w1) + " " + CollapseSpaces(w2)
    decreases |w1|, 1
  {
    if w1 == [] {
      var s := w1 + sp + w2;
      assert s == sp + w2;
      DropRun(sp, w2);
      assert CollapseSpaces(w1) + " " == [' '];
    } else if IsRegexSpace(w1[0]) {
      JoinAfterSpace(w1, sp, w2);
    } else {
      JoinAfterOther(w1, sp, w2);
    }
  }

  /** `CollapseJoin` when `w1` starts with a `\s` character. */
  lemma {:induction false} JoinAfterSpace(w1: string, sp: string, w2: string)
    requires sp != [] && forall k :: 0 <= k < |sp| ==> IsRegexSpace(sp[k])
    requires w1 != [] && IsRegexSpace(w1[0]) && !IsRegexSpace(w1[|w1| - 1])
    requires w2 == [] || !IsRegexSpace(w2[0])
    ensures CollapseSpaces(w1 + sp + w2) == CollapseSpaces(w1) + " " + CollapseSpaces(w2)
    decreases |w1|, 0
  {
    var d := DropSpaces(w1);
    Assoc(w1, sp, w2);
    SpaceLead(w1, sp + w2);
    Assoc(d, sp, w2);
    DropKeepsLast(w1);
    CollapseJoin(d, sp, w2);
    Regroup([' '], CollapseSpaces(d), " ", CollapseSpaces(w2));
  }

  lemma Assoc(a: string, b: string, c: string)
    ensures a + b + c == a + (b + c)
  {
  }

  /** A leading `\s` run of `w`, which does not end in one, collapses to one ' ' before the rest. */
  lemma SpaceLead(w: string, rest: string)
    requires w != [] && IsRegexSpace(w[0]) && !IsRegexSpace(w[|w| - 1])
    ensures CollapseSpaces(w + rest) == [' '] + CollapseSpaces(DropSpaces(w) + rest)
  {
    DropSpacesAppend(w, rest);
  }

  /** Dropping the leading `\s` run keeps a last character that is not `\s`. */
  lemma DropKeepsLast(w: string)
    requires w != [] && !IsRegexSpace(w[|w| - 1])
    ensures DropSpaces(w) != [] && DropSpaces(w)[|DropSpaces(w)| - 1] == w[|w| - 1]
  {
  }

  /** `CollapseJoin` when `w1` starts with another character. */
  lemma {:induction false} JoinAfterOther(w1: string, sp: string, w2: string)
    requires sp != [] && forall k :: 0 <= k < |sp| ==> IsRegexSpace(sp[k])
    requires w1 != [] && !IsRegexSpace(w1[0]) && !IsRegexSpace(w1[|w1| - 1])
    requires w2 == [] || !IsRegexSpace(w2[0])
    ensures CollapseSpaces(w1 + sp + w2) == CollapseSpaces(w1) + " " + CollapseSpaces(w2)
    decreases |w1|, 0
  {
    var s := w1 + sp + w2;
    assert s[1..] == w1[1..] + sp + w2;
    CollapseJoin(w1[1..], sp, w2);
    Regroup([w1[0]], CollapseSpaces(w1[1..]), " ", CollapseSpaces(w2));
  }

  /** `Character.isWhitespace` on ASCII. */
  predicate IsJavaWhitespace(c: char)
  {
    c == ' ' || c == '\t' || c == '\n' || c == '\U{B}' || c == '\U{C}' || c == '\r'
    || c == '\U{1C}' || c == '\U{1D}' || c == '\U{1E}' || c == '\U{1F}'
  }

  /** `Character.isDigit` on ASCII. */
  predicate IsDigit(c: char)
  {
    '0' <= c <= '9'
  }

  /** The text a `StringBuilder` holds after appending every line in order. */
  function Concat(lines: seq<string>): (r: string)
    ensures |r| == TotalLength(lines)
  {
    if lines == [] then [] else Concat(lines[..|lines| - 1]) + lines[|lines| - 1]
  }

  /** The sum of the lengths of `lines`. */
  function TotalLength(lines: seq<string>): nat
  {
    if lines == [] then 0 else TotalLength(lines[..|lines| - 1]) + |lines[|lines| - 1]|
  }
}
