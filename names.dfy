/** The `Student` record of grouping.py: free-text names, split on
    whitespace, stripped and lower-cased, and the full name that identifies
    a student everywhere else in the pipeline. */
module Names {
  import opened Wrappers

  /** The characters Python's `str.split()` and `str.strip()` treat as
      whitespace (those for which `str.isspace()` holds). */
  predicate IsSpace(c: char) {
    || '\U{9}' <= c <= '\U{D}'
    || '\U{1C}' <= c <= '\U{20}'
    || c == '\U{85}' || c == '\U{A0}' || c == '\U{1680}'
    || '\U{2000}' <= c <= '\U{200A}'
    || c == '\U{2028}' || c == '\U{2029}' || c == '\U{202F}'
    || c == '\U{205F}' || c == '\U{3000}'
  }

  /** A word as `split()` produces it: non-empty, without whitespace. */
  predicate IsToken(w: string) {
    w != [] && forall i :: 0 <= i < |w| ==> !IsSpace(w[i])
  }

  predicate AllTokens(ws: seq<string>) {
    forall i :: 0 <= i < |ws| ==> IsToken(ws[i])
  }

  /** `str.lower()` on one character (upper-case ASCII letters only). */
  function LowerChar(c: char): (r: char)
    ensures IsSpace(r) <==> IsSpace(c)
    ensures !('A' <= r <= 'Z')
    ensures !('A' <= c <= 'Z') ==> r == c
    ensures 'A' <= c <= 'Z' ==> r as int == c as int + 32
  {
    if 'A' <= c <= 'Z' then (c as int - 'A' as int + 'a' as int) as char else c
  }

  /** `str.lower()`. */
  function Lower(s: string): (r: string)
    ensures |r| == |s|
  {
    if s == [] then [] else [LowerChar(s[0])] + Lower(s[1..])
  }

  /** Drops leading whitespace. */
  function TrimLeft(s: string): string {
    if s != [] && IsSpace(s[0]) then TrimLeft(s[1..]) else s
  }

  /** Drops trailing whitespace. */
  function TrimRight(s: string): string {
    if s != [] && IsSpace(s[|s| - 1]) then TrimRight(s[..|s| - 1]) else s
  }

  /** `str.strip()` with no argument. */
  function Strip(s: string): string {
    TrimRight(TrimLeft(s))
  }

  /** `TrimLeft` leaves a suffix of `s`, cuts only whitespace, and leaves
      no whitespace at the start. */
  lemma {:induction false} TrimLeftCut(s: string)
    ensures var r := TrimLeft(s);
      && |r| <= |s| && r == s[|s| - |r|..]
      && (forall k :: 0 <= k < |s| - |r| ==> IsSpace(s[k]))
      && (r != [] ==> !IsSpace(r[0]))
    decreases |s|
  {
    if s != [] && IsSpace(s[0]) {
      TrimLeftCut(s[1..]);
    }
  }

  /** `TrimRight` leaves a prefix of `s`, cuts only whitespace, and leaves
      no whitespace at the end. */
  lemma {:induction false} TrimRightCut(s: string)
    ensures var r := TrimRight(s);
      && |r| <= |s| && r == s[..|r|]
      && (forall k :: |r| <= k < |s| ==> IsSpace(s[k]))
      && (r != [] ==> !IsSpace(r[|r| - 1]))
    decreases |s|
  {
    if s != [] && IsSpace(s[|s| - 1]) {
      TrimRightCut(s[..|s| - 1]);
    }
  }

  /** `strip()` leaves the slice `s[i..i + |r|]`, cuts only whitespace at
      either end, and leaves no whitespace at either of its own ends. */
  lemma StripCut(s: string)
    ensures var r, i := Strip(s), |s| - |TrimLeft(s)|;
      && 0 <= i && i + |r| <= |s| && r == s[i..i + |r|]
      && (forall k :: 0 <= k < i ==> IsSpace(s[k]))
      && (forall k :: i + |r| <= k < |s| ==> IsSpace(s[k]))
      && (r == [] || (!IsSpace(r[0]) && !IsSpace(r[|r| - 1])))
  {
    var t := TrimLeft(s);
    var r := TrimRight(t);
    assert r == Strip(s);
    TrimLeftCut(s);
    TrimRightCut(t);
    SliceOfSlice(s, t, r);
  }

  /** A prefix `r` of a suffix `t` of `s`, with only whitespace after `r`
      in `t`, is a slice of `s` with only whitespace after it. */
  lemma SliceOfSlice(s: string, t: string, r: string)
    requires |t| <= |s| && t == s[|s| - |t|..]
    requires |r| <= |t| && r == t[..|r|]
    requires forall k :: |r| <= k < |t| ==> IsSpace(t[k])
    requires t != [] ==> !IsSpace(t[0])
    ensures var i := |s| - |t|;
      && r == s[i..i + |r|]
      && (forall k :: i + |r| <= k < |s| ==> IsSpace(s[k]))
      && (r != [] ==> r[0] == t[0])
  {
    var i := |s| - |t|;
    forall k | i + |r| <= k < |s| ensures IsSpace(s[k]) {
      assert s[k] == t[k - i];
    }
  }

  /** `str.split()` with no argument: the maximal runs of non-whitespace,
      in order. A character that is not whitespace starts a new word unless
      the character before it was not whitespace either. */
  function Split(s: string): seq<string>
    decreases |s|
  {
    if s == [] then []
    else if IsSpace(s[0]) then Split(s[1..])
    else
      var rest := Split(s[1..]);
      if |s| > 1 && !IsSpace(s[1]) && rest != [] then [[s[0]] + rest[0]] + rest[1..]
      else [[s[0]]] + rest
  }

  /** A string starting with a non-whitespace character splits into a first
      word starting with that character. */
  lemma {:induction false} SplitStartsWord(s: string)
    requires s != [] && !IsSpace(s[0])
    ensures Split(s) != [] && Split(s)[0] != [] && Split(s)[0][0] == s[0]
  {
  }

  /** `" ".join(parts)`. */
  function Join(parts: seq<string>): string {
    if parts == [] then ""
    else if |parts| == 1 then parts[0]
    else parts[0] + " " + Join(parts[1..])
  }

  /** A student: first, last and optional middle name, each as stored by
      the constructor of grouping.py. */
  datatype Student = Student(fn: string, ln: string, mn: Option<string>)

  /** Raised by `parse` when the name has no word at all (`x[0]` fails). */
  datatype NameError = EmptyName

  /** A stored name part: in lower case, with no whitespace at either end. */
  predicate Clean(w: string) {
    && (w == [] || (!IsSpace(w[0]) && !IsSpace(w[|w| - 1])))
    && Lower(w) == w
  }

  /** `Student(fn, ln, mn)`: every given part is stripped, then lower-cased,
      so every stored part is clean, whatever whitespace and case the raw
      cell had. */
  function NewStudent(fn: string, ln: string, mn: Option<string>): (st: Student)
    ensures st.fn == Lower(Strip(fn)) && st.ln == Lower(Strip(ln))
    ensures st.mn.Some? <==> mn.Some?
    ensures mn.Some? ==> st.mn.value == Lower(Strip(mn.value))
    ensures Clean(st.fn) && Clean(st.ln)
    ensures st.mn.Some? ==> Clean(st.mn.value)
  {
    CleanPart(fn);
    CleanPart(ln);
    Student(Lower(Strip(fn)), Lower(Strip(ln)),
            match mn case Some(m) => CleanPart(m); Some(Lower(Strip(m))) case None => None)
  }

  /** The parts `get_full_name` joins: first, the middle name when set, last. */
  function Parts(st: Student): seq<string> {
    match st.mn
    case Some(m) => [st.fn, m, st.ln]
    case None => [st.fn, st.ln]
  }

  /** `get_full_name`: the single-space join of the parts. */
  function FullName(st: Student): string {
    Join(Parts(st))
  }

  /** `Student.parse`: the first word is the first name, the last word the
      last name, and the middle word is kept only when there are exactly
      three; a name without any word raises. */
  function Parse(name: string): (r: Result<Student, NameError>)
    ensures r.Err? <==> Split(name) == []
  {
    var x := Split(name);
    if x == [] then Err(EmptyName)
    else Ok(NewStudent(x[0], x[|x| - 1], if |x| == 3 then Some(x[1]) else None))
  }

  /** Lower-cases every word of a list. */
  function LowerAll(ws: seq<string>): (r: seq<string>)
    ensures |r| == |ws|
  {
    if ws == [] then [] else [Lower(ws[0])] + LowerAll(ws[1..])
  }

  // ---------------------------------------------------------------------
  // Words

  /** Every piece `split()` returns is a word. */
  lemma {:induction false} SplitTokens(s: string)
    ensures AllTokens(Split(s))
    decreases |s|
  {
    if s != [] {
      SplitTokens(s[1..]);
      var rest := Split(s[1..]);
      if !IsSpace(s[0]) && |s| > 1 && !IsSpace(s[1]) && rest != [] {
        var w := [s[0]] + rest[0];
        assert IsToken(rest[0]);
        assert forall i :: 1 <= i < |w| ==> w[i] == rest[0][i - 1];
        assert IsToken(w);
      }
    }
  }

  lemma StripToken(w: string)
    requires IsToken(w)
    ensures Strip(w) == w
  {
  }

  lemma {:induction false} LowerAt(s: string, i: int)
    requires 0 <= i < |s|
    ensures Lower(s)[i] == LowerChar(s[i])
    decreases |s|
  {
    if i > 0 {
      LowerAt(s[1..], i - 1);
    }
  }

  lemma LowerToken(w: string)
    requires IsToken(w)
    ensures IsToken(Lower(w))
  {
    forall i | 0 <= i < |w| ensures !IsSpace(Lower(w)[i]) {
      LowerAt(w, i);
    }
  }

  lemma {:induction false} LowerIdempotent(s: string)
    ensures Lower(Lower(s)) == Lower(s)
    decreases |s|
  {
    if s != [] {
      LowerIdempotent(s[1..]);
      assert Lower(s)[1..] == Lower(s[1..]);
    }
  }

  /** Stripping and lower-casing a part leaves it clean. */
  lemma CleanPart(s: string)
    ensures Clean(Lower(Strip(s)))
  {
    var w := Strip(s);
    StripCut(s);
    if w != [] {
      LowerAt(w, 0);
      LowerAt(w, |w| - 1);
    }
    LowerIdempotent(w);
  }

  /** The characters of `s` that are not whitespace, in order. */
  function Squeeze(s: string): string {
    if s == [] then [] else (if IsSpace(s[0]) then [] else [s[0]]) + Squeeze(s[1..])
  }

  /** The words of a list, run together. */
  function Concat(ws: seq<string>): string {
    if ws == [] then [] else ws[0] + Concat(ws[1..])
  }

  /** `split()` loses nothing but whitespace: its words, run together, are
      the non-whitespace characters of `s`. */
  lemma {:induction false} SplitWords(s: string)
    ensures Concat(Split(s)) == Squeeze(s)
    decreases |s|
  {
    if s != [] {
      SplitWords(s[1..]);
      var rest := Split(s[1..]);
      if !IsSpace(s[0]) && |s| > 1 && !IsSpace(s[1]) && rest != [] {
        var ws := [[s[0]] + rest[0]] + rest[1..];
        assert ws[1..] == rest[1..];
        assert Concat(ws) == [s[0]] + (rest[0] + Concat(rest[1..]));
      } else if !IsSpace(s[0]) {
        assert ([[s[0]]] + rest)[1..] == rest;
      }
    }
  }

  /** Leading whitespace is skipped. */
  lemma SplitSpaceHead(s: string)
    requires s != [] && IsSpace(s[0])
    ensures Split(s) == Split(s[1..])
  {
  }

  /** The end of the word starting `a`: the first whitespace, or `|a|`. */
  lemma {:induction false} WordEnd(a: string) returns (k: int)
    requires a != [] && !IsSpace(a[0])
    ensures 1 <= k <= |a| && IsToken(a[..k])
    ensures k < |a| ==> IsSpace(a[k])
    decreases |a|
  {
    if |a| == 1 || IsSpace(a[1]) {
      k := 1;
    } else {
      var k' := WordEnd(a[1..]);
      k := k' + 1;
      assert a[..k] == [a[0]] + a[1..][..k'];
    }
  }

  /** Splitting a string that ends before a whitespace character splits
      the two halves apart. */
  lemma {:induction false} SplitAppend(a: string, b: string)
    requires b != [] && IsSpace(b[0])
    ensures Split(a + b) == Split(a) + Split(b)
    decreases |a|
  {
    if a == [] {
      assert a + b == b;
    } else if IsSpace(a[0]) {
      SplitAppend(a[1..], b);
      AppendSpace(a, b);
    } else {
      var k := WordEnd(a);
      if k < |a| {
        SplitAppend(a[k..], b);
        AppendWordRest(a, b, k);
      } else {
        AppendWord(a, b);
      }
    }
  }

  /** `SplitAppend` when `a` starts with whitespace. */
  lemma AppendSpace(a: string, b: string)
    requires a != [] && IsSpace(a[0])
    requires Split(a[1..] + b) == Split(a[1..]) + Split(b)
    ensures Split(a + b) == Split(a) + Split(b)
  {
    assert (a + b)[1..] == a[1..] + b;
    SplitSpaceHead(a + b);
    SplitSpaceHead(a);
  }

  /** `SplitAppend` when `a` starts with a word that ends inside `a`. */
  lemma AppendWordRest(a: string, b: string, k: int)
    requires 1 <= k < |a| && IsToken(a[..k]) && IsSpace(a[k])
    requires Split(a[k..] + b) == Split(a[k..]) + Split(b)
    ensures Split(a + b) == Split(a) + Split(b)
  {
    assert a == a[..k] + a[k..];
    assert a + b == a[..k] + (a[k..] + b);
    WordThenRest(a[..k], a[k..], b);
  }

  /** A word followed by text starting with whitespace splits off first,
      with or without `b` after that text. */
  lemma WordThenRest(w: string, r: string, b: string)
    requires IsToken(w) && r != [] && IsSpace(r[0])
    requires Split(r + b) == Split(r) + Split(b)
    ensures Split(w + (r + b)) == Split(w + r) + Split(b)
  {
    assert (r + b)[0] == r[0];
    SplitCons(w, r + b);
    SplitCons(w, r);
    Regroup(w, Split(w + (r + b)), Split(w + r), Split(r), Split(b));
  }

  /** The word lists of `WordThenRest`, regrouped. */
  lemma Regroup(w: string, whole: seq<string>, front: seq<string>, rs: seq<string>, bs: seq<string>)
    requires whole == [w] + (rs + bs) && front == [w] + rs
    ensures whole == front + bs
  {
  }

  /** `SplitAppend` when `a` is a single word. */
  lemma AppendWord(a: string, b: string)
    requires IsToken(a) && b != [] && IsSpace(b[0])
    ensures Split(a + b) == Split(a) + Split(b)
  {
    SplitCons(a, b);
    SplitJoin([a]);
    assert Join([a]) == a;
  }

  /** Whitespace separates words: cutting `s` at a whitespace character
      splits it into the words before and the words after. */
  lemma SplitAtSpace(s: string, i: int)
    requires 0 <= i < |s| && IsSpace(s[i])
    ensures Split(s) == Split(s[..i]) + Split(s[i + 1..])
  {
    assert s == s[..i] + s[i..];
    SplitAppend(s[..i], s[i..]);
    SplitSpaceHead(s[i..]);
    assert s[i..][1..] == s[i + 1..];
  }

  /** `split()` finds no word exactly when `s` is empty or all whitespace,
      the case in which `parse` raises. */
  lemma {:induction false} SplitEmpty(s: string)
    ensures Split(s) == [] <==> forall k :: 0 <= k < |s| ==> IsSpace(s[k])
    decreases |s|
  {
    if s != [] {
      SplitEmpty(s[1..]);
      if IsSpace(s[0]) {
        assert forall k :: 1 <= k < |s| ==> s[k] == s[1..][k - 1];
      }
    }
  }

  /** The fields of a parsed student: lower-cased words of the name. */
  lemma ParseFields(name: string)
    requires Parse(name).Ok?
    ensures var x, st := Split(name), Parse(name).value;
      && st.fn == Lower(x[0]) && st.ln == Lower(x[|x| - 1])
      && (st.mn.Some? <==> |x| == 3)
      && (|x| == 3 ==> st.mn == Some(Lower(x[1])))
  {
    var x := Split(name);
    SplitTokens(name);
    StripToken(x[0]);
    StripToken(x[|x| - 1]);
    if |x| == 3 {
      StripToken(x[1]);
    }
  }

  // ---------------------------------------------------------------------
  // Splitting and joining

  lemma {:induction false} SplitCons(w: string, rest: string)
    requires IsToken(w)
    requires rest == [] || IsSpace(rest[0])
    ensures Split(w + rest) == [w] + Split(rest)
    decreases |w|
  {
    var s := w + rest;
    assert s[0] == w[0];
    if |w| == 1 {
      assert s[1..] == rest;
      assert |s| > 1 ==> s[1] == rest[0];
      assert [s[0]] == w;
    } else {
      assert s[1..] == w[1..] + rest;
      assert IsToken(w[1..]);
      SplitCons(w[1..], rest);
      assert s[1] == w[1];
      assert [w[0]] + w[1..] == w;
    }
  }

  /** Splitting the single-space join of words gives the words back. */
  lemma {:induction false} SplitJoin(ws: seq<string>)
    requires AllTokens(ws)
    ensures Split(Join(ws)) == ws
    decreases |ws|
  {
    if ws == [] {
    } else if |ws| == 1 {
      SplitCons(ws[0], []);
      assert ws[0] + [] == ws[0];
    } else {
      var w := ws[0];
      var j := Join(ws[1..]);
      assert Join(ws) == w + ([' '] + j);
      SplitCons(w, [' '] + j);
      assert ([' '] + j)[1..] == j;
      SplitJoin(ws[1..]);
      assert ws == [w] + ws[1..];
    }
  }

  // ---------------------------------------------------------------------
  // Case-insensitivity

  /** Lower-casing before or after splitting gives the same words. */
  lemma {:induction false} SplitLower(s: string)
    ensures Split(Lower(s)) == LowerAll(Split(s))
    decreases |s|
  {
    if s != [] {
      var l := Lower(s);
      assert l[0] == LowerChar(s[0]) && l[1..] == Lower(s[1..]);
      SplitLower(s[1..]);
      if !IsSpace(s[0]) {
        var rest := Split(s[1..]);
        if |s| > 1 && !IsSpace(s[1]) {
          LowerAt(s, 1);
          assert l[1] == LowerChar(s[1]);
          assert LowerAll(rest) == [Lower(rest[0])] + LowerAll(rest[1..]);
          assert Lower([s[0]] + rest[0]) == [LowerChar(s[0])] + Lower(rest[0]) by {
            assert ([s[0]] + rest[0])[1..] == rest[0];
          }
          var ws := [[s[0]] + rest[0]] + rest[1..];
          assert ws[1..] == rest[1..];
        } else {
          assert Lower([s[0]]) == [LowerChar(s[0])];
          var ws := [[s[0]]] + rest;
          assert ws[1..] == rest;
        }
      }
    }
  }

  // ---------------------------------------------------------------------
  // Properties of parse and get_full_name

  /** Two names that differ only in letter case and in the whitespace
      between or around their words give the same student. */
  lemma ParseIgnoresCaseAndSpacing(a: string, b: string)
    requires Split(Lower(a)) == Split(Lower(b))
    ensures Parse(a) == Parse(b)
  {
    SplitLower(a);
    SplitLower(b);
    var x, y := Split(a), Split(b);
    LowerAllAt(x);
    LowerAllAt(y);
    assert |x| == |y|;
    if x != [] {
      ParseFields(a);
      ParseFields(b);
      assert Lower(x[0]) == LowerAll(x)[0] == Lower(y[0]);
      assert Lower(x[|x| - 1]) == LowerAll(x)[|x| - 1] == Lower(y[|y| - 1]);
      if |x| == 3 {
        assert Lower(x[1]) == LowerAll(x)[1] == Lower(y[1]);
      }
    }
  }

  lemma {:induction false} LowerAllAt(ws: seq<string>)
    ensures forall i :: 0 <= i < |ws| ==> LowerAll(ws)[i] == Lower(ws[i])
    decreases |ws|
  {
    if ws != [] {
      LowerAllAt(ws[1..]);
    }
  }

  /** The parts of a parsed student are lower-cased words. */
  lemma ParsedParts(name: string)
    requires Parse(name).Ok?
    ensures AllTokens(Parts(Parse(name).value))
    ensures forall i :: 0 <= i < |Parts(Parse(name).value)| ==>
      Lower(Parts(Parse(name).value)[i]) == Parts(Parse(name).value)[i]
  {
    var x := Split(name);
    ParseFields(name);
    SplitTokens(name);
    LowerToken(x[0]);
    LowerToken(x[|x| - 1]);
    LowerIdempotent(x[0]);
    LowerIdempotent(x[|x| - 1]);
    if |x| == 3 {
      LowerToken(x[1]);
      LowerIdempotent(x[1]);
    }
  }

  /** The full name of a parsed student parses back to that student:
      normalisation is idempotent. */
  lemma ParseFullName(name: string)
    requires Parse(name).Ok?
    ensures Parse(FullName(Parse(name).value)) == Parse(name)
  {
    var st := Parse(name).value;
    var ps := Parts(st);
    ParsedParts(name);
    SplitJoin(ps);
    var full := FullName(st);
    assert Split(full) == ps;
    ParseFields(full);
    var st' := Parse(full).value;
    assert st'.fn == Lower(ps[0]) == st.fn;
    assert st'.ln == Lower(ps[|ps| - 1]) == st.ln;
    if |ps| == 3 {
      assert st'.mn == Some(Lower(ps[1])) == st.mn;
    }
  }

  /** Parsed students are equal exactly when their full names are: the full
      name is a faithful identity key. */
  lemma FullNameIdentifies(a: string, b: string)
    requires Parse(a).Ok? && Parse(b).Ok?
    ensures FullName(Parse(a).value) == FullName(Parse(b).value) <==> Parse(a) == Parse(b)
  {
    ParseFullName(a);
    ParseFullName(b);
  }
}
