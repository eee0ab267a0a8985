/** Characters, strings and sequence searches shared by every script in the
    catalog pipeline: the JavaScript and Python string primitives the scripts
    use (toLowerCase, trim, split, includes, parseInt, the regex classes \s and
    \w), written out over `seq<char>`. */
module Common {

  datatype Option<+T> = None | Some(value: T)

  /** What a regular-expression match hands back to the scripts: the whole
      match (`match[0]`) and the first capture group (`match[1]`), absent when
      the group did not take part. */
  datatype RegexMatch = RegexMatch(whole: string, group: Option<string>)

  /** `match[1] || match[0]`. */
  function MatchText(m: RegexMatch): (r: string)
    ensures m.group.Some? && m.group.value != "" ==> r == m.group.value
    ensures !(m.group.Some? && m.group.value != "") ==> r == m.whole
  {
    if m.group.Some? && m.group.value != "" then m.group.value else m.whole
  }

  // ---------------------------------------------------------------------------
  // Character classes
  // ---------------------------------------------------------------------------

  predicate IsDigit(c: char) { '0' <= c <= '9' }

  predicate IsAsciiUpper(c: char) { 'A' <= c <= 'Z' }

  predicate IsAsciiLower(c: char) { 'a' <= c <= 'z' }

  /** The regex class [a-zA-Z]. */
  predicate IsAsciiLetter(c: char) { IsAsciiUpper(c) || IsAsciiLower(c) }

  /** JavaScript's \w without the u flag: [A-Za-z0-9_]. */
  predicate IsJsWordChar(c: char) { IsAsciiLetter(c) || IsDigit(c) || c == '_' }

  /** Characters that ECMAScript's `.` does not match (LineTerminator). */
  predicate IsJsLineTerminator(c: char) {
    c == '\n' || c == '\r' || c == '\U{2028}' || c == '\U{2029}'
  }

  /** JavaScript's \s, which is also the set String.prototype.trim removes:
      WhiteSpace (TAB, VT, FF, SP, NBSP, ZWNBSP and the Zs category) and
      LineTerminator. */
  predicate IsJsSpace(c: char) {
    c == '\t' || c == '\U{B}' || c == '\U{C}' || c == ' ' || c == '\U{A0}' ||
    c == '\U{FEFF}' || c == '\U{1680}' || ('\U{2000}' <= c <= '\U{200A}') ||
    c == '\U{202F}' || c == '\U{205F}' || c == '\U{3000}' || IsJsLineTerminator(c)
  }

  /** Python's str whitespace (re's \s on str patterns, str.strip()). */
  predicate IsPySpace(c: char) {
    ('\t' <= c <= '\r') || ('\U{1C}' <= c <= '\U{1F}') || c == ' ' || c == '\U{85}' ||
    c == '\U{A0}' || c == '\U{1680}' || ('\U{2000}' <= c <= '\U{200A}') ||
    c == '\U{2028}' || c == '\U{2029}' || c == '\U{202F}' || c == '\U{205F}' || c == '\U{3000}'
  }

  /** Python's \w restricted to ASCII letters, digits and '_'. */
  predicate IsPyWordChar(c: char) { IsAsciiLetter(c) || IsDigit(c) || c == '_' }

  function LowerChar(c: char): (r: char)
    ensures !IsAsciiUpper(r)
    ensures IsAsciiLetter(c) <==> IsAsciiLetter(r)
    ensures IsDigit(c) <==> IsDigit(r)
  {
    if IsAsciiUpper(c) then (c as int + 32) as char else c
  }

  /** toLowerCase() / lower() on the ASCII letters. */
  function ToLower(s: string): (r: string)
    ensures |r| == |s|
    ensures forall i :: 0 <= i < |s| ==> r[i] == LowerChar(s[i])
  {
    if s == [] then [] else [LowerChar(s[0])] + ToLower(s[1..])
  }

  lemma ToLowerAppend(x: string, y: string)
    ensures ToLower(x + y) == ToLower(x) + ToLower(y)
  {
    var l, r := ToLower(x + y), ToLower(x) + ToLower(y);
    forall k | 0 <= k < |x + y|
      ensures l[k] == r[k]
    {
      if k < |x| {
        assert (x + y)[k] == x[k];
      } else {
        assert (x + y)[k] == y[k - |x|];
      }
    }
    assert l == r;
  }

  lemma ToLowerIdempotent(s: string)
    ensures ToLower(ToLower(s)) == ToLower(s)
  {
    assert forall k :: 0 <= k < |s| ==> ToLower(ToLower(s))[k] == ToLower(s)[k];
  }

  /** Lower-casing leaves a string without upper-case letters as it is. */
  lemma ToLowerUnchanged(s: string)
    requires forall k :: 0 <= k < |s| ==> !IsAsciiUpper(s[k])
    ensures ToLower(s) == s
  {
    assert forall k :: 0 <= k < |s| ==> ToLower(s)[k] == s[k];
  }

  // ---------------------------------------------------------------------------
  // Prefixes, suffixes, substrings
  // ---------------------------------------------------------------------------

  predicate StartsWith(s: string, p: string) { |p| <= |s| && s[..|p|] == p }

  predicate EndsWith(s: string, p: string) { |p| <= |s| && s[|s| - |p|..] == p }

  /** `sub` occurs in `s` at index i. */
  predicate OccursAt(s: string, sub: string, i: nat) {
    i + |sub| <= |s| && s[i..i + |sub|] == sub
  }

  /** String.prototype.includes / Python `in`. */
  predicate Contains(s: string, sub: string)
    decreases |s|
  {
    StartsWith(s, sub) || (s != [] && Contains(s[1..], sub))
  }

  lemma {:induction false} ContainsIff(s: string, sub: string)
    ensures Contains(s, sub) <==> exists i: nat :: OccursAt(s, sub, i)
    decreases |s|
  {
    if StartsWith(s, sub) {
      assert OccursAt(s, sub, 0);
    } else if s == [] {
      assert |sub| > 0;
    } else {
      ContainsIff(s[1..], sub);
      if Contains(s[1..], sub) {
        var i: nat :| OccursAt(s[1..], sub, i);
        assert s[i + 1..i + 1 + |sub|] == s[1..][i..i + |sub|];
        assert OccursAt(s, sub, i + 1);
      } else {
        forall i: nat | OccursAt(s, sub, i) ensures false {
          if i > 0 {
            assert s[1..][i - 1..i - 1 + |sub|] == s[i..i + |sub|];
            assert OccursAt(s[1..], sub, i - 1);
          }
        }
      }
    }
  }

  /** A string occurring between two others is contained in their concatenation. */
  lemma ContainsMiddle(a: string, sub: string, b: string)
    ensures Contains(a + sub + b, sub)
  {
    ContainsIff(a + sub + b, sub);
    assert (a + sub + b)[|a|..|a| + |sub|] == sub;
    assert OccursAt(a + sub + b, sub, |a|);
  }

  /** `words.some(w => s.includes(w))`. */
  predicate ContainsAny(s: string, words: seq<string>) {
    exists k :: 0 <= k < |words| && Contains(s, words[k])
  }

  /** The empty string is contained in every string. */
  lemma ContainsEmpty(s: string)
    ensures Contains(s, "")
  {
    assert StartsWith(s, "");
  }

  // ---------------------------------------------------------------------------
  // Whitespace handling
  // ---------------------------------------------------------------------------

  /** The end of the run of `isSpace` characters starting at `i`. */
  function SpanEnd(s: string, isSpace: char -> bool, i: nat): (j: nat)
    requires i <= |s|
    ensures i <= j <= |s| && (j == |s| || !isSpace(s[j]))
    ensures forall k :: i <= k < j ==> isSpace(s[k])
    decreases |s| - i
  {
    if i < |s| && isSpace(s[i]) then SpanEnd(s, isSpace, i + 1) else i
  }

  /** The start of the run of `isSpace` characters ending at `j`. */
  function SpanStart(s: string, isSpace: char -> bool, j: nat): (i: nat)
    requires j <= |s|
    ensures i <= j && (i == 0 || !isSpace(s[i - 1]))
    ensures forall k :: i <= k < j ==> isSpace(s[k])
    decreases j
  {
    if j > 0 && isSpace(s[j - 1]) then SpanStart(s, isSpace, j - 1) else j
  }

  function TrimStart(s: string, isSpace: char -> bool): (r: string)
    ensures |r| <= |s| && r == s[|s| - |r|..]
    ensures r == [] || !isSpace(r[0])
  {
    s[SpanEnd(s, isSpace, 0)..]
  }

  lemma TrimStartUnchanged(s: string, isSpace: char -> bool)
    requires s == [] || !isSpace(s[0])
    ensures TrimStart(s, isSpace) == s
  {
    assert SpanEnd(s, isSpace, 0) == 0;
  }

  function TrimEnd(s: string, isSpace: char -> bool): (r: string)
    ensures |r| <= |s| && r == s[..|r|]
    ensures r == [] || !isSpace(r[|r| - 1])
  {
    s[..SpanStart(s, isSpace, |s|)]
  }

  /** String.prototype.trim(). */
  function TrimJs(s: string): (r: string)
    ensures |r| <= |s|
    ensures forall c :: c in r ==> c in s
    ensures r == [] || (!IsJsSpace(r[0]) && !IsJsSpace(r[|r| - 1]))
  {
    TrimEnd(TrimStart(s, IsJsSpace), IsJsSpace)
  }

  /** Python's str.strip(). */
  function TrimPy(s: string): (r: string)
    ensures |r| <= |s|
    ensures r == [] || (!IsPySpace(r[0]) && !IsPySpace(r[|r| - 1]))
  {
    TrimEnd(TrimStart(s, IsPySpace), IsPySpace)
  }

  /** Trimming keeps only characters of the text. */
  lemma TrimPyInside(s: string, p: char -> bool)
    requires forall c :: c in s ==> p(c)
    ensures forall k :: 0 <= k < |TrimPy(s)| ==> p(TrimPy(s)[k])
  {
    var start := TrimStart(s, IsPySpace);
    var r := TrimPy(s);
    forall k | 0 <= k < |r| ensures p(r[k]) {
      assert r[k] == start[k] == s[|s| - |start| + k];
    }
  }

  /** Replaces every maximal run of `isSpace` characters by one ' ', as
      `.replace(/\s+/g, ' ')` and `re.sub(r"\s+", " ", t)` do. `inRun` says
      whether the character before `s` was part of a run already replaced. */
  function CollapseFrom(s: string, isSpace: char -> bool, inRun: bool): (r: string)
    ensures forall c :: c in r ==> c == ' ' || c in s
    decreases |s|
  {
    if s == [] then []
    else if isSpace(s[0]) then (if inRun then [] else " ") + CollapseFrom(s[1..], isSpace, true)
    else [s[0]] + CollapseFrom(s[1..], isSpace, false)
  }

  function CollapseSpaces(s: string, isSpace: char -> bool): string {
    CollapseFrom(s, isSpace, false)
  }

  /** `.replace(/[^\w\s]/g, repl)` with a one-character or empty replacement. */
  function ReplaceOther(s: string, keep: char -> bool, repl: string): (r: string)
    ensures |repl| == 1 ==> |r| == |s|
    ensures repl == "" ==> |r| <= |s|
    ensures forall c :: c in r ==> keep(c) || c in repl
    ensures forall c :: c in r ==> c in s || c in repl
  {
    if s == [] then []
    else (if keep(s[0]) then [s[0]] else repl) + ReplaceOther(s[1..], keep, repl)
  }

  lemma ReplaceOtherCons(c: char, rest: string, keep: char -> bool, repl: string)
    ensures ReplaceOther([c] + rest, keep, repl) == (if keep(c) then [c] else repl) + ReplaceOther(rest, keep, repl)
  {
    assert ([c] + rest)[1..] == rest;
  }

  /** Deletes every occurrence of `c`. */
  function RemoveChar(s: string, c: char): (r: string)
    ensures c !in r
  {
    if s == [] then [] else (if s[0] == c then [] else [s[0]]) + RemoveChar(s[1..], c)
  }

  lemma {:induction false} RemoveCharAppend(a: string, b: string, c: char)
    ensures RemoveChar(a + b, c) == RemoveChar(a, c) + RemoveChar(b, c)
    decreases |a|
  {
    if a == [] {
      assert a + b == b;
    } else {
      assert (a + b)[1..] == a[1..] + b;
      assert (a + b)[0] == a[0];
      RemoveCharAppend(a[1..], b, c);
      var h := if a[0] == c then [] else [a[0]];
      assert RemoveChar(a + b, c) == h + (RemoveChar(a[1..], c) + RemoveChar(b, c));
      AppendAssoc(h, RemoveChar(a[1..], c), RemoveChar(b, c));
    }
  }

  lemma {:induction false} RemoveCharAbsent(s: string, c: char)
    requires c !in s
    ensures RemoveChar(s, c) == s
    decreases |s|
  {
    if s != [] { RemoveCharAbsent(s[1..], c); }
  }

  // ---------------------------------------------------------------------------
  // Split and join
  // ---------------------------------------------------------------------------

  /** String.prototype.split with a one-character separator (and Python's
      str.split with an explicit separator): never empty, and the pieces are
      the maximal separator-free segments, empty ones included. */
  function Split(s: string, sep: char): (r: seq<string>)
    ensures |r| >= 1
    ensures forall i :: 0 <= i < |r| ==> sep !in r[i]
    decreases |s|
  {
    if s == [] then [""]
    else
      var rest := Split(s[1..], sep);
      if s[0] == sep then [""] + rest
      else [[s[0]] + rest[0]] + rest[1..]
  }

  /** Array.prototype.join. */
  function Join(ws: seq<string>, sep: string): string
    decreases |ws|
  {
    if ws == [] then ""
    else if |ws| == 1 then ws[0]
    else ws[0] + sep + Join(ws[1..], sep)
  }

  lemma JoinThree(x: string, y: string, z: string, sep: string)
    ensures Join([x, y, z], sep) == x + sep + y + sep + z
  {
    assert [x, y, z][1..] == [y, z];
    assert [y, z][1..] == [z];
    assert Join([y, z], sep) == y + sep + z;
    assert Join([x, y, z], sep) == x + sep + (y + sep + z);
  }

  /** Concatenation of all pieces (a join with the empty separator). */
  function Concat(ws: seq<string>): string
    decreases |ws|
  {
    if ws == [] then "" else ws[0] + Concat(ws[1..])
  }

  lemma {:induction false} ConcatAppend(a: seq<string>, b: seq<string>)
    ensures Concat(a + b) == Concat(a) + Concat(b)
    decreases |a|
  {
    if a == [] {
      assert a + b == b;
    } else {
      assert (a + b)[1..] == a[1..] + b;
      ConcatAppend(a[1..], b);
    }
  }

  /** Joining the pieces of a split gives back the string. */
  lemma {:induction false} JoinSplit(s: string, sep: char)
    ensures Join(Split(s, sep), [sep]) == s
    decreases |s|
  {
    if s != [] {
      var rest := Split(s[1..], sep);
      JoinSplit(s[1..], sep);
      if s[0] == sep {
        assert Split(s, sep) == [""] + rest;
        assert ([""] + rest)[1..] == rest;
      } else {
        var r := [[s[0]] + rest[0]] + rest[1..];
        assert Split(s, sep) == r;
        if |rest| == 1 {
          assert Join(r, [sep]) == [s[0]] + rest[0];
        } else {
          assert r[1..] == rest[1..];
          assert Join(rest, [sep]) == rest[0] + [sep] + Join(rest[1..], [sep]);
        }
      }
    }
  }

  /** Splitting a join of separator-free pieces gives back the pieces. */
  lemma {:induction false} SplitJoin(ws: seq<string>, sep: char)
    requires |ws| >= 1
    requires forall i :: 0 <= i < |ws| ==> sep !in ws[i]
    ensures Split(Join(ws, [sep]), sep) == ws
    decreases |ws|, |ws[0]|
  {
    if |ws| == 1 {
      SplitNoSep(ws[0], sep);
    } else if ws[0] == [] {
      var s := Join(ws, [sep]);
      assert s == [sep] + Join(ws[1..], [sep]);
      assert s[1..] == Join(ws[1..], [sep]);
      SplitJoin(ws[1..], sep);
    } else {
      var s := Join(ws, [sep]);
      var ws' := [ws[0][1..]] + ws[1..];
      assert ws'[1..] == ws[1..];
      assert Join(ws', [sep]) == ws[0][1..] + [sep] + Join(ws[1..], [sep]);
      assert s == [ws[0][0]] + Join(ws', [sep]);
      assert s[1..] == Join(ws', [sep]);
      assert ws[0][0] != sep by { assert ws[0][0] in ws[0]; }
      forall i | 0 <= i < |ws'| ensures sep !in ws'[i] {
        if i == 0 {
          assert forall c :: c in ws[0][1..] ==> c in ws[0];
        } else {
          assert ws'[i] == ws[i];
        }
      }
      SplitJoin(ws', sep);
      assert [ws[0][0]] + ws'[0] == ws[0];
      assert ws == [ws[0]] + ws'[1..];
    }
  }

  lemma {:induction false} SplitNoSep(s: string, sep: char)
    requires sep !in s
    ensures Split(s, sep) == [s]
    decreases |s|
  {
    if s != [] {
      assert s[0] in s;
      assert forall c :: c in s[1..] ==> c in s;
      SplitNoSep(s[1..], sep);
      var rest := Split(s[1..], sep);
      assert rest == [s[1..]];
      assert s[0] != sep;
      assert Split(s, sep) == [[s[0]] + rest[0]] + rest[1..];
      assert [s[0]] + s[1..] == s;
    }
  }

  /** Deleting the separator from a string concatenates its split pieces. */
  lemma {:induction false} RemoveSepIsConcatOfSplit(s: string, sep: char)
    ensures RemoveChar(s, sep) == Concat(Split(s, sep))
    decreases |s|
  {
    if s != [] {
      RemoveSepIsConcatOfSplit(s[1..], sep);
      var rest := Split(s[1..], sep);
      if s[0] == sep {
        assert Split(s, sep) == [""] + rest;
        assert ([""] + rest)[1..] == rest;
      } else {
        var r := [[s[0]] + rest[0]] + rest[1..];
        assert r[1..] == rest[1..];
        assert Concat(rest) == rest[0] + Concat(rest[1..]);
      }
    }
  }

  /** Deleting the separator from a join of separator-free pieces concatenates them. */
  lemma {:induction false} RemoveSepFromJoin(ws: seq<string>, sep: char)
    requires forall i :: 0 <= i < |ws| ==> sep !in ws[i]
    ensures RemoveChar(Join(ws, [sep]), sep) == Concat(ws)
    decreases |ws|
  {
    if |ws| == 1 {
      RemoveCharAbsent(ws[0], sep);
      assert Concat(ws) == ws[0] + Concat([]);
    } else if |ws| > 1 {
      RemoveSepFromJoin(ws[1..], sep);
      RemoveCharAppend(ws[0] + [sep], Join(ws[1..], [sep]), sep);
      RemoveCharAppend(ws[0], [sep], sep);
      RemoveCharAbsent(ws[0], sep);
      assert RemoveChar([sep], sep) == [];
      assert ws[0] + [sep] + Join(ws[1..], [sep]) == Join(ws, [sep]);
    }
  }

  // ---------------------------------------------------------------------------
  // Searches
  // ---------------------------------------------------------------------------

  /** The first element satisfying `p`: the shape of every "loop, return on
      the first acceptable match" search in the scripts. */
  function FirstSatisfying<T>(s: seq<T>, p: T -> bool): (r: Option<T>)
    ensures r.Some? ==> exists k :: 0 <= k < |s| && s[k] == r.value && p(s[k]) &&
                          forall j :: 0 <= j < k ==> !p(s[j])
    ensures r.None? <==> forall k :: 0 <= k < |s| ==> !p(s[k])
    decreases |s|
  {
    if s == [] then None
    else if p(s[0]) then Some(s[0])
    else
      var r := FirstSatisfying(s[1..], p);
      assert forall k :: 1 <= k < |s| ==> s[k] == s[1..][k - 1];
      r
  }

  /** When every element satisfying `p` is `v` and one does, the search finds `v`. */
  lemma FirstSatisfyingUnique<T>(s: seq<T>, p: T -> bool, m: nat, v: T)
    requires m < |s| && p(s[m])
    requires forall k :: 0 <= k < |s| && p(s[k]) ==> s[k] == v
    ensures FirstSatisfying(s, p) == Some(v)
  {
  }

  lemma {:induction false} FirstSatisfyingAppend<T>(a: seq<T>, b: seq<T>, p: T -> bool)
    ensures FirstSatisfying(a + b, p) ==
            if FirstSatisfying(a, p).Some? then FirstSatisfying(a, p) else FirstSatisfying(b, p)
    decreases |a|
  {
    if a == [] {
      assert a + b == b;
    } else {
      assert (a + b)[0] == a[0];
      assert (a + b)[1..] == a[1..] + b;
      FirstSatisfyingAppend(a[1..], b, p);
    }
  }

  /** Array.prototype.map. */
  function MapSeq<A, B>(xs: seq<A>, f: A -> B): (r: seq<B>)
    ensures |r| == |xs| && forall k :: 0 <= k < |xs| ==> r[k] == f(xs[k])
  {
    seq(|xs|, k requires 0 <= k < |xs| => f(xs[k]))
  }

  lemma AppendAssoc<T>(x: seq<T>, y: seq<T>, z: seq<T>)
    ensures x + (y + z) == x + y + z
  {
  }

  /** Overwriting the first element after a done prefix `a` of an in-place
      rewrite extends the prefix by one. */
  lemma UpdateAtSeam<T>(a: seq<T>, rest: seq<T>, y: T)
    requires rest != []
    ensures (a + rest)[|a| := y] == a + [y] + rest[1..]
  {
    var l, r := (a + rest)[|a| := y], a + [y] + rest[1..];
    forall k | 0 <= k < |l| ensures l[k] == r[k] {
      if k > |a| {
        assert l[k] == rest[k - |a|];
      }
    }
    assert l == r;
  }

  lemma MapSeqSnoc<A, B>(xs: seq<A>, i: nat, f: A -> B)
    requires i < |xs|
    ensures MapSeq(xs[..i + 1], f) == MapSeq(xs[..i], f) + [f(xs[i])]
  {
  }

  /** The number of elements satisfying `p` (a counter bumped in a loop). */
  function CountWhere<T>(s: seq<T>, p: T -> bool): (n: nat)
    ensures n <= |s|
    ensures n == 0 <==> forall k :: 0 <= k < |s| ==> !p(s[k])
    decreases |s|
  {
    if s == [] then 0
    else
      var init := s[..|s| - 1];
      assert forall k :: 0 <= k < |init| ==> init[k] == s[k];
      CountWhere(init, p) + (if p(s[|s| - 1]) then 1 else 0)
  }

  lemma CountWhereSnoc<T>(s: seq<T>, i: nat, p: T -> bool)
    requires i < |s|
    ensures CountWhere(s[..i + 1], p) == CountWhere(s[..i], p) + (if p(s[i]) then 1 else 0)
  {
    assert s[..i + 1][..i] == s[..i];
  }

  /** Two counters for tests that no element passes together add up to at
      most the number of elements. */
  lemma {:induction false} CountWhereDisjoint<T>(s: seq<T>, p: T -> bool, q: T -> bool)
    requires forall k :: 0 <= k < |s| ==> !(p(s[k]) && q(s[k]))
    ensures CountWhere(s, p) + CountWhere(s, q) <= |s|
    decreases |s|
  {
    if s != [] {
      var init := s[..|s| - 1];
      assert forall k :: 0 <= k < |init| ==> init[k] == s[k];
      CountWhereDisjoint(init, p, q);
    }
  }

  /** A test and its negation split the elements between them. */
  lemma {:induction false} CountWhereComplement<T>(s: seq<T>, p: T -> bool, q: T -> bool)
    requires forall k :: 0 <= k < |s| ==> q(s[k]) == !p(s[k])
    ensures CountWhere(s, p) + CountWhere(s, q) == |s|
    decreases |s|
  {
    if s != [] {
      var init := s[..|s| - 1];
      assert forall k :: 0 <= k < |init| ==> init[k] == s[k];
      CountWhereComplement(init, p, q);
    }
  }

  /** Array.prototype.filter: the elements satisfying `p`, in order. */
  function Filter<T>(s: seq<T>, p: T -> bool): (r: seq<T>)
    ensures |r| <= |s|
    ensures forall k :: 0 <= k < |r| ==> p(r[k])
    decreases |s|
  {
    if s == [] then []
    else
      var init := Filter(s[..|s| - 1], p);
      init + (if p(s[|s| - 1]) then [s[|s| - 1]] else [])
  }

  /** Filtering keeps exactly the elements of `s` that satisfy `p`. */
  lemma {:induction false} FilterMembers<T>(s: seq<T>, p: T -> bool)
    ensures forall k :: 0 <= k < |Filter(s, p)| ==> Filter(s, p)[k] in s
    ensures forall x :: x in s && p(x) ==> x in Filter(s, p)
    decreases |s|
  {
    if s != [] {
      var init := s[..|s| - 1];
      FilterMembers(init, p);
      assert forall x :: x in s ==> x in init || x == s[|s| - 1];
      assert forall x :: x in init ==> x in s;
    }
  }

  lemma FilterSnoc<T>(s: seq<T>, x: T, p: T -> bool)
    ensures Filter(s + [x], p) == Filter(s, p) + (if p(x) then [x] else [])
  {
    assert (s + [x])[..|s + [x]| - 1] == s;
  }

  /** One step of a loop that filters `s` front to back. */
  lemma FilterPrefixStep<T>(s: seq<T>, i: nat, p: T -> bool)
    requires i < |s|
    ensures Filter(s[..i + 1], p) == Filter(s[..i], p) + (if p(s[i]) then [s[i]] else [])
  {
    assert s[..i + 1] == s[..i] + [s[i]];
    FilterSnoc(s[..i], s[i], p);
  }

  lemma {:induction false} FilterAppend<T>(a: seq<T>, b: seq<T>, p: T -> bool)
    ensures Filter(a + b, p) == Filter(a, p) + Filter(b, p)
    decreases |b|
  {
    if b == [] {
      assert a + b == a;
    } else {
      var b0, x := b[..|b| - 1], b[|b| - 1];
      FilterAppend(a, b0, p);
      assert a + b == (a + b0) + [x];
      assert b == b0 + [x];
      FilterSnoc(a + b0, x, p);
      FilterSnoc(b0, x, p);
      var fa, fb0, t := Filter(a, p), Filter(b0, p), if p(x) then [x] else [];
      assert Filter(a + b, p) == (fa + fb0) + t;
      assert (fa + fb0) + t == fa + (fb0 + t);
    }
  }

  /** Nothing passes the filter when no element satisfies the test. */
  lemma {:induction false} FilterNone<T>(s: seq<T>, p: T -> bool)
    requires forall x :: x in s ==> !p(x)
    ensures Filter(s, p) == []
    decreases |s|
  {
    if s != [] {
      var init := s[..|s| - 1];
      assert forall x :: x in init ==> x in s;
      FilterNone(init, p);
      assert s[|s| - 1] in s;
    }
  }

  /** Two tests that agree on every element filter alike. */
  lemma {:induction false} FilterAgree<T>(s: seq<T>, p: T -> bool, q: T -> bool)
    requires forall k :: 0 <= k < |s| ==> p(s[k]) == q(s[k])
    ensures Filter(s, p) == Filter(s, q)
    decreases |s|
  {
    if s != [] {
      var init := s[..|s| - 1];
      assert forall k :: 0 <= k < |init| ==> init[k] == s[k];
      FilterAgree(init, p, q);
    }
  }

  /** Filtering keeps every element when all of them pass. */
  lemma {:induction false} FilterAll<T>(s: seq<T>, p: T -> bool)
    requires forall k :: 0 <= k < |s| ==> p(s[k])
    ensures Filter(s, p) == s
    decreases |s|
  {
    if s != [] {
      FilterAll(s[..|s| - 1], p);
      assert s[..|s| - 1] + [s[|s| - 1]] == s;
    }
  }

  // ---------------------------------------------------------------------------
  // Numbers
  // ---------------------------------------------------------------------------

  function DigitValue(c: char): (r: nat)
    requires IsDigit(c)
    ensures r < 10
  {
    c as int - '0' as int
  }

  function DigitChar(d: nat): (c: char)
    requires d < 10
    ensures IsDigit(c) && DigitValue(c) == d
  {
    (d + '0' as int) as char
  }

  /** Number of leading decimal digits. */
  function DigitPrefixLen(s: string): (n: nat)
    ensures n <= |s|
    ensures forall i :: 0 <= i < n ==> IsDigit(s[i])
    ensures n < |s| ==> !IsDigit(s[n])
    decreases |s|
  {
    if s != [] && IsDigit(s[0]) then 1 + DigitPrefixLen(s[1..]) else 0
  }

  /** The value of a string of decimal digits. */
  function DigitsValue(s: string): (v: nat)
    requires forall i :: 0 <= i < |s| ==> IsDigit(s[i])
    decreases |s|
  {
    if s == [] then 0 else 10 * DigitsValue(s[..|s| - 1]) + DigitValue(s[|s| - 1])
  }

  /** Decimal text of a natural number, without leading zeros. */
  function NatToString(n: nat): (s: string)
    ensures |s| >= 1
    ensures forall i :: 0 <= i < |s| ==> IsDigit(s[i])
    ensures |s| > 1 ==> s[0] != '0'
    decreases n
  {
    if n < 10 then [DigitChar(n)] else NatToString(n / 10) + [DigitChar(n % 10)]
  }

  /** `${n}` for an integer in a template literal. */
  function IntToString(n: int): string {
    if n < 0 then "-" + NatToString(-n) else NatToString(n)
  }

  lemma {:induction false} DigitsValueOfNatToString(n: nat)
    ensures DigitsValue(NatToString(n)) == n
    decreases n
  {
    if n >= 10 {
      DigitsValueOfNatToString(n / 10);
      var s := NatToString(n / 10) + [DigitChar(n % 10)];
      assert s[..|s| - 1] == NatToString(n / 10);
    }
  }

  /** The class [0-9a-fA-F]. */
  predicate IsHexDigit(c: char) { IsDigit(c) || 'a' <= c <= 'f' || 'A' <= c <= 'F' }

  function HexDigitValue(c: char): (r: nat)
    requires IsHexDigit(c)
    ensures r < 16
    ensures IsDigit(c) ==> r == DigitValue(c)
  {
    if IsDigit(c) then DigitValue(c)
    else if 'a' <= c <= 'f' then c as int - 'a' as int + 10
    else c as int - 'A' as int + 10
  }

  /** Length of the longest prefix of hexadecimal digits. */
  function HexPrefixLen(s: string): (n: nat)
    ensures n <= |s|
    ensures forall i :: 0 <= i < n ==> IsHexDigit(s[i])
    ensures n < |s| ==> !IsHexDigit(s[n])
    decreases |s|
  {
    if s != [] && IsHexDigit(s[0]) then 1 + HexPrefixLen(s[1..]) else 0
  }

  /** Value of a string of hexadecimal digits, most significant first. */
  function HexValue(s: string): (v: nat)
    requires forall i :: 0 <= i < |s| ==> IsHexDigit(s[i])
    decreases |s|
  {
    if s == [] then 0 else 16 * HexValue(s[..|s| - 1]) + HexDigitValue(s[|s| - 1])
  }

  /** The "0x" or "0X" that makes parseInt without a radix read base 16. */
  predicate HexPrefixed(u: string) { |u| >= 2 && u[0] == '0' && (u[1] == 'x' || u[1] == 'X') }

  /** JavaScript's parseInt(s) without a radix: skip leading white space and
      an optional sign; after "0x" or "0X" read the longest run of hexadecimal
      digits, otherwise the longest run of decimal digits; `None` is NaN (no
      digit in the run). */
  function ParseIntJs(s: string): Option<int> {
    var t := TrimStart(s, IsJsSpace);
    var neg := t != [] && t[0] == '-';
    var u := if t != [] && (t[0] == '-' || t[0] == '+') then t[1..] else t;
    if HexPrefixed(u) then
      var h := u[2..];
      var n := HexPrefixLen(h);
      if n == 0 then None
      else
        var v: int := HexValue(h[..n]);
        Some(if neg then -v else v)
    else
      var n := DigitPrefixLen(u);
      if n == 0 then None
      else
        var v: int := DigitsValue(u[..n]);
        Some(if neg then -v else v)
  }

  /** parseInt of "0x50" is 80: the hexadecimal prefix is honoured. */
  lemma ParseIntHex()
    ensures ParseIntJs("0x50") == Some(80)
  {
    ParseIntHexPrefixed("0x50");
    HexFifty();
  }

  /** After "0x" or "0X" at the front, parseInt reads the leading hexadecimal digits. */
  lemma ParseIntHexPrefixed(s: string)
    requires HexPrefixed(s)
    ensures var n := HexPrefixLen(s[2..]);
      ParseIntJs(s) == if n == 0 then None else Some(HexValue(s[2..][..n]))
  {
    DigitNotSpaceNorSign(s[0]);
    TrimStartUnchanged(s, IsJsSpace);
    assert TrimStart(s, IsJsSpace) == s;
  }

  lemma HexFifty()
    ensures HexPrefixLen("0x50"[2..]) == 2 && HexValue("0x50"[2..][..2]) == 80
  {
    var h := "0x50"[2..];
    assert h == "50";
    assert h[..2] == h;
    assert HexPrefixLen(h) == 2 by {
      assert h[1..][1..] == [];
    }
    assert h[..1] == "5";
    assert HexValue("5") == 5 by {
      assert "5"[..0] == [];
    }
  }

  lemma {:induction false} DigitPrefixOfDigits(s: string)
    requires forall i :: 0 <= i < |s| ==> IsDigit(s[i])
    ensures DigitPrefixLen(s) == |s|
    decreases |s|
  {
    if s != [] { DigitPrefixOfDigits(s[1..]); }
  }

  /** parseInt reads back the decimal text of a natural number. */
  lemma ParseIntOfNatToString(n: nat)
    ensures ParseIntJs(NatToString(n)) == Some(n)
  {
    ParseIntOfDigits(NatToString(n));
    DigitsValueOfNatToString(n);
  }

  /** parseInt of a non-empty string of digits is their decimal value. */
  lemma ParseIntOfDigits(s: string)
    requires s != [] && forall i :: 0 <= i < |s| ==> IsDigit(s[i])
    ensures ParseIntJs(s) == Some(DigitsValue(s))
  {
    DigitNotSpaceNorSign(s[0]);
    DigitsNotHexPrefixed(s);
    ParseIntUnsigned(s);
    DigitPrefixOfDigits(s);
    assert s[..|s|] == s;
  }

  lemma DigitsNotHexPrefixed(s: string)
    requires forall i :: 0 <= i < |s| ==> IsDigit(s[i])
    ensures !HexPrefixed(s)
  {
    if |s| >= 2 { DigitNotSpaceNorSign(s[1]); }
  }

  lemma DigitNotSpaceNorSign(c: char)
    requires IsDigit(c)
    ensures !IsJsSpace(c) && c != '-' && c != '+' && c != 'x' && c != 'X'
  {
  }

  /** Without leading white space, a sign or "0x", parseInt reads the leading digits. */
  lemma ParseIntUnsigned(s: string)
    requires s != [] && !IsJsSpace(s[0]) && s[0] != '-' && s[0] != '+' && !HexPrefixed(s)
    ensures var n := DigitPrefixLen(s);
      ParseIntJs(s) == if n == 0 then None else Some(DigitsValue(s[..n]))
  {
    TrimStartUnchanged(s, IsJsSpace);
  }

  // ---------------------------------------------------------------------------
  // First match of a regex of the shape /prefix(class+)/
  // ---------------------------------------------------------------------------

  /** A match of /prefix(class+)/ can start at `i`: the prefix occurs there and
      at least one character of the class follows it. */
  predicate RunAt(t: string, prefix: string, inClass: char -> bool, i: nat) {
    OccursAt(t, prefix, i) && i + |prefix| < |t| && inClass(t[i + |prefix|])
  }

  /** The capture group of the leftmost match at or after `i` of
      /prefix(class+)/: the greedy run of class characters behind the prefix. */
  function PrefixedRunFrom(t: string, prefix: string, inClass: char -> bool, i: nat): (r: Option<string>)
    requires i <= |t|
    ensures r.None? <==> forall j :: i <= j <= |t| ==> !RunAt(t, prefix, inClass, j)
    ensures r.Some? ==>
      exists j :: i <= j < |t| && RunAt(t, prefix, inClass, j) &&
        (forall k :: i <= k < j ==> !RunAt(t, prefix, inClass, k)) &&
        r.value == t[j + |prefix|..SpanEnd(t, inClass, j + |prefix|)]
    decreases |t| - i
  {
    if RunAt(t, prefix, inClass, i) then Some(t[i + |prefix|..SpanEnd(t, inClass, i + |prefix|)])
    else if i == |t| then None
    else PrefixedRunFrom(t, prefix, inClass, i + 1)
  }

  /** `t.match(/prefix(class+)/)?.[1]`: a non-empty run of class characters,
      followed by the end of the text or by a character outside the class. */
  function PrefixedRun(t: string, prefix: string, inClass: char -> bool): (r: Option<string>)
    ensures r.Some? ==> r.value != [] && forall k :: 0 <= k < |r.value| ==> inClass(r.value[k])
    ensures r.None? <==> forall j :: 0 <= j <= |t| ==> !RunAt(t, prefix, inClass, j)
  {
    var r := PrefixedRunFrom(t, prefix, inClass, 0);
    if r.Some? then
      var j :| 0 <= j < |t| && RunAt(t, prefix, inClass, j) &&
        r.value == t[j + |prefix|..SpanEnd(t, inClass, j + |prefix|)];
      assert forall k :: 0 <= k < |r.value| ==> r.value[k] == t[j + |prefix| + k];
      r
    else r
  }

  /** The captured run follows the prefix in the text. */
  lemma PrefixedRunOccurs(t: string, prefix: string, inClass: char -> bool)
    requires PrefixedRun(t, prefix, inClass).Some?
    ensures Contains(t, prefix + PrefixedRun(t, prefix, inClass).value)
  {
    PrefixedRunIsFrom(t, prefix, inClass);
    var r := PrefixedRunFrom(t, prefix, inClass, 0);
    var j :| 0 <= j < |t| && RunAt(t, prefix, inClass, j) &&
      r.value == t[j + |prefix|..SpanEnd(t, inClass, j + |prefix|)];
    PrefixThenRunOccurs(t, prefix, r.value, j, SpanEnd(t, inClass, j + |prefix|));
    ContainsIff(t, prefix + r.value);
  }

  lemma PrefixedRunIsFrom(t: string, prefix: string, inClass: char -> bool)
    ensures PrefixedRun(t, prefix, inClass) == PrefixedRunFrom(t, prefix, inClass, 0)
  {
  }

  /** The prefix at `j` followed by the text up to `e` occurs at `j`. */
  lemma PrefixThenRunOccurs(t: string, prefix: string, run: string, j: nat, e: nat)
    requires OccursAt(t, prefix, j) && j + |prefix| <= e <= |t|
    requires run == t[j + |prefix|..e]
    ensures OccursAt(t, prefix + run, j)
  {
    assert t[j..e] == t[j..j + |prefix|] + t[j + |prefix|..e];
  }

  // ---------------------------------------------------------------------------
  // Normal forms of the whitespace functions
  // ---------------------------------------------------------------------------

  /** No two adjacent blanks. */
  predicate NoDoubleSpace(s: string) {
    forall i :: 0 <= i < |s| - 1 ==> !(s[i] == ' ' && s[i + 1] == ' ')
  }

  /** Collapsing leaves ' ' as the only space character, never two adjacent
      blanks, and no leading blank once inside a run. */
  lemma {:induction false} CollapseShape(s: string, isSpace: char -> bool, inRun: bool)
    requires isSpace(' ')
    ensures forall k :: 0 <= k < |CollapseFrom(s, isSpace, inRun)| ==>
      CollapseFrom(s, isSpace, inRun)[k] == ' ' || !isSpace(CollapseFrom(s, isSpace, inRun)[k])
    ensures NoDoubleSpace(CollapseFrom(s, isSpace, inRun))
    ensures inRun && CollapseFrom(s, isSpace, inRun) != [] ==> CollapseFrom(s, isSpace, inRun)[0] != ' '
    decreases |s|
  {
    if s != [] {
      var rest := CollapseFrom(s[1..], isSpace, isSpace(s[0]));
      CollapseShape(s[1..], isSpace, isSpace(s[0]));
      if isSpace(s[0]) {
        assert CollapseFrom(s, isSpace, inRun) == (if inRun then [] else " ") + rest;
      } else {
        assert CollapseFrom(s, isSpace, inRun) == [s[0]] + rest;
      }
    }
  }

  /** A string whose only space character is ' ', never doubled, is its own
      collapse. */
  lemma {:induction false} CollapseUnchanged(s: string, isSpace: char -> bool, inRun: bool)
    requires forall k :: 0 <= k < |s| ==> s[k] == ' ' || !isSpace(s[k])
    requires NoDoubleSpace(s)
    requires inRun ==> s == [] || s[0] != ' '
    requires isSpace(' ')
    ensures CollapseFrom(s, isSpace, inRun) == s
    decreases |s|
  {
    if s != [] {
      assert NoDoubleSpace(s[1..]) by {
        forall i | 0 <= i < |s[1..]| - 1 ensures !(s[1..][i] == ' ' && s[1..][i + 1] == ' ') {
          assert s[1..][i] == s[i + 1] && s[1..][i + 1] == s[i + 2];
        }
      }
      if s[0] == ' ' {
        assert |s| > 1 ==> s[1] != ' ';
      }
      CollapseUnchanged(s[1..], isSpace, isSpace(s[0]));
      assert s == [s[0]] + s[1..];
    }
  }

  /** Replacing the characters outside `keep` leaves a string of kept
      characters as it is. */
  lemma {:induction false} ReplaceOtherUnchanged(s: string, keep: char -> bool, repl: string)
    requires forall k :: 0 <= k < |s| ==> keep(s[k])
    ensures ReplaceOther(s, keep, repl) == s
    decreases |s|
  {
    if s != [] {
      ReplaceOtherUnchanged(s[1..], keep, repl);
      assert s == [s[0]] + s[1..];
    }
  }

  /** trim() returns a contiguous piece of its argument. */
  lemma TrimJsSlice(s: string) returns (a: nat)
    ensures a + |TrimJs(s)| <= |s| && TrimJs(s) == s[a..a + |TrimJs(s)|]
  {
    var t := TrimStart(s, IsJsSpace);
    a := |s| - |t|;
    assert TrimJs(s) == t[..|TrimJs(s)|];
  }

  /** trim() leaves a string without surrounding spaces as it is. */
  lemma TrimJsUnchanged(s: string)
    requires s == [] || (!IsJsSpace(s[0]) && !IsJsSpace(s[|s| - 1]))
    ensures TrimJs(s) == s
  {
    TrimStartUnchanged(s, IsJsSpace);
    TrimEndUnchanged(s, IsJsSpace);
  }

  lemma TrimEndUnchanged(s: string, isSpace: char -> bool)
    requires s == [] || !isSpace(s[|s| - 1])
    ensures TrimEnd(s, isSpace) == s
  {
    assert SpanStart(s, isSpace, |s|) == |s|;
    assert s[..|s|] == s;
  }
}
