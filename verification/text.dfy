/** The Python string built-ins the step definitions rely on: `str.split(sep)`,
    `str.strip()`, `str.split()` with no separator, the substring test `p in t`
    and `int()` on decimal text. Each is given as a function together with a
    partner (an inverse or an independent characterisation) and the lemma
    connecting the two. */
module Text {
  import opened Base

  /** Python's `str.isspace()` for one character. */
  predicate IsSpace(c: char) {
    c == ' ' || ('\t' <= c <= '\r') || ('\U{1c}' <= c <= '\U{1f}') || c == '\U{85}' || c == '\U{a0}'
    || c == '\U{1680}' || ('\U{2000}' <= c <= '\U{200a}') || c == '\U{2028}' || c == '\U{2029}'
    || c == '\U{202f}' || c == '\U{205f}' || c == '\U{3000}'
  }

  predicate AllSpace(s: string) {
    forall k :: 0 <= k < |s| ==> IsSpace(s[k])
  }

  predicate NoSpace(s: string) {
    forall k :: 0 <= k < |s| ==> !IsSpace(s[k])
  }

  /** Neither end of `s` is whitespace: what `strip()` leaves. */
  predicate Trimmed(s: string) {
    s == [] || (!IsSpace(s[0]) && !IsSpace(s[|s| - 1]))
  }

  // ---------------------------------------------------------------------------
  // s.split(sep)

  /** Python's `s.split(sep)` for a one-character separator: the pieces between
      occurrences of `sep`, left to right; there is always at least one piece,
      and the empty text gives one empty piece. */
  function Split(s: string, sep: char): (parts: seq<string>)
    ensures |parts| >= 1
    ensures forall k :: 0 <= k < |parts| ==> sep !in parts[k]
  {
    if s == [] then [[]]
    else
      var rest := Split(s[1..], sep);
      if s[0] == sep then [[]] + rest
      else [[s[0]] + rest[0]] + rest[1..]
  }

  /** There is one more piece than there are separators. */
  lemma {:induction false} SplitLength(s: string, sep: char)
    ensures |Split(s, sep)| == multiset(s)[sep] + 1
  {
    if s != [] {
      SplitLength(s[1..], sep);
      assert s == [s[0]] + s[1..];
      assert multiset(s) == multiset{s[0]} + multiset(s[1..]);
    }
  }

  /** Python's `sep.join(parts)`: the inverse of `Split`. */
  function Join(parts: seq<string>, sep: char): string
    requires |parts| >= 1
  {
    if |parts| == 1 then parts[0] else parts[0] + [sep] + Join(parts[1..], sep)
  }

  /** Splitting loses nothing: joining the pieces back gives the text. */
  lemma {:induction false} JoinSplit(s: string, sep: char)
    ensures Join(Split(s, sep), sep) == s
  {
    if s != [] {
      var rest := Split(s[1..], sep);
      JoinSplit(s[1..], sep);
      if s[0] == sep {
        assert Split(s, sep) == [[]] + rest;
        assert Split(s, sep)[1..] == rest;
      } else {
        assert Split(s, sep) == [[s[0]] + rest[0]] + rest[1..];
        if |rest| > 1 {
          assert Split(s, sep)[1..] == rest[1..];
        }
      }
    }
  }

  /** A separator-free prefix is glued to the first piece of what follows it. */
  lemma {:induction false} SplitPrefix(a: string, t: string, sep: char)
    requires sep !in a
    ensures Split(a + t, sep) == [a + Split(t, sep)[0]] + Split(t, sep)[1..]
  {
    if a != [] {
      assert (a + t)[1..] == a[1..] + t;
      SplitPrefix(a[1..], t, sep);
      var rest := Split((a + t)[1..], sep);
      assert rest == [a[1..] + Split(t, sep)[0]] + Split(t, sep)[1..];
      assert a[0] != sep && (a + t)[0] == a[0];
      assert Split(a + t, sep) == [[a[0]] + rest[0]] + rest[1..];
      assert rest[1..] == Split(t, sep)[1..];
      assert [a[0]] + (a[1..] + Split(t, sep)[0]) == a + Split(t, sep)[0];
    } else {
      assert a + t == t && a + Split(t, sep)[0] == Split(t, sep)[0];
      assert Split(t, sep) == [Split(t, sep)[0]] + Split(t, sep)[1..];
    }
  }

  /** Pieces free of the separator are recovered by splitting their join. */
  lemma {:induction false} SplitJoin(parts: seq<string>, sep: char)
    requires |parts| >= 1
    requires forall k :: 0 <= k < |parts| ==> sep !in parts[k]
    ensures Split(Join(parts, sep), sep) == parts
  {
    if |parts| == 1 {
      SplitPrefix(parts[0], [], sep);
      assert parts[0] + [] == parts[0];
    } else {
      var tail := Join(parts[1..], sep);
      assert Join(parts, sep) == parts[0] + [sep] + tail;
      SplitJoin(parts[1..], sep);
      assert parts[0] + [sep] + tail == parts[0] + ([sep] + tail);
      SplitPrefix(parts[0], [sep] + tail, sep);
      assert ([sep] + tail)[1..] == tail;
      assert Split([sep] + tail, sep) == [[]] + Split(tail, sep);
      assert Split([sep] + tail, sep)[0] == [] && Split([sep] + tail, sep)[1..] == parts[1..];
      assert parts[0] + [] == parts[0];
      assert parts == [parts[0]] + parts[1..];
    }
  }

  /** The position of the first `c` in `s`. */
  function FirstIndex(s: string, c: char): (i: nat)
    requires c in s
    ensures i < |s| && s[i] == c && c !in s[..i]
  {
    if s[0] == c then 0 else 1 + FirstIndex(s[1..], c)
  }

  /** Python's `s.split(c, 1)` when `c` occurs in `s`: the text before the
      first `c` and everything after it. */
  function SplitOnce(s: string, c: char): (halves: (string, string))
    requires c in s
    ensures c !in halves.0
    ensures halves.0 + [c] + halves.1 == s
  {
    var i := FirstIndex(s, c);
    assert s == s[..i] + [c] + s[i + 1..];
    (s[..i], s[i + 1..])
  }

  /** `s.split(c, 1)` cuts at the first `c`: a `c`-free prefix comes back whole. */
  lemma SplitOnceOf(a: string, b: string, c: char)
    requires c !in a
    ensures c in a + [c] + b
    ensures SplitOnce(a + [c] + b, c) == (a, b)
  {
    var s := a + [c] + b;
    assert s[|a|] == c;
    var i := FirstIndex(s, c);
    assert s[..i] == a;
    assert s[i + 1..] == b;
  }

  /** A `c`-free head followed by `c` is the first piece, and the tail is
      split on its own. */
  lemma SplitAround(a: string, b: string, c: char)
    requires c !in a
    ensures Split(a + [c] + b, c) == [a] + Split(b, c)
  {
    assert Split([c] + b, c) == [[]] + Split(b, c) by {
      assert ([c] + b)[1..] == b;
    }
    assert a + [c] + b == a + ([c] + b);
    SplitPrefix(a, [c] + b, c);
    assert a + [] == a;
  }

  /** `s.split(c, 1)` is the first piece of `s.split(c)` and the rest joined back. */
  lemma SplitOnceAgreesWithSplit(s: string, c: char)
    requires c in s
    ensures |Split(s, c)| >= 2
    ensures SplitOnce(s, c).0 == Split(s, c)[0]
    ensures SplitOnce(s, c).1 == Join(Split(s, c)[1..], c)
  {
    var halves := SplitOnce(s, c);
    SplitAround(halves.0, halves.1, c);
    assert Split(s, c)[1..] == Split(halves.1, c);
    JoinSplit(halves.1, c);
  }

  // ---------------------------------------------------------------------------
  // s.strip()

  /** Python's `s.strip()`: `s` without its leading and trailing whitespace. */
  function Strip(s: string): (r: string)
    ensures Trimmed(r)
    ensures |r| <= |s|
  {
    if s != [] && IsSpace(s[0]) then Strip(s[1..])
    else if s != [] && IsSpace(s[|s| - 1]) then Strip(s[..|s| - 1])
    else s
  }

  /** `s` is `r` with the whitespace `a` before it and `b` after it. */
  predicate PaddedBy(s: string, r: string, a: string, b: string) {
    AllSpace(a) && AllSpace(b) && s == a + r + b
  }

  /** Every text is its stripped form with whitespace `a` before it and `b`
      after it. */
  lemma {:induction false} StripShape(s: string) returns (a: string, b: string)
    ensures PaddedBy(s, Strip(s), a, b)
  {
    if s != [] && IsSpace(s[0]) {
      var a', b' := StripShape(s[1..]);
      a, b := [s[0]] + a', b';
      assert AllSpace(a);
      calc {
        s;
        [s[0]] + s[1..];
        [s[0]] + (a' + Strip(s) + b');
        a + Strip(s) + b;
      }
    } else if s != [] && IsSpace(s[|s| - 1]) {
      var a', b' := StripShape(s[..|s| - 1]);
      a, b := a', b' + [s[|s| - 1]];
      assert AllSpace(b);
      calc {
        s;
        s[..|s| - 1] + [s[|s| - 1]];
        (a' + Strip(s) + b') + [s[|s| - 1]];
        a + Strip(s) + b;
      }
    } else {
      a, b := [], [];
      assert s == a + s + b;
    }
  }

  /** Stripping only removes characters: whatever is in the result was in the text. */
  lemma StripKeeps(s: string, c: char)
    requires c in Strip(s)
    ensures c in s
  {
    var a, b := StripShape(s);
  }

  /** Leading whitespace is stripped away whatever follows it. */
  lemma {:induction false} StripLeading(a: string, r: string)
    requires AllSpace(a)
    ensures Strip(a + r) == Strip(r)
    decreases |a|
  {
    if a != [] {
      assert (a + r)[0] == a[0];
      assert (a + r)[1..] == a[1..] + r;
      StripLeading(a[1..], r);
    } else {
      assert a + r == r;
    }
  }

  /** Trailing whitespace after a trimmed text is stripped away. */
  lemma {:induction false} StripTrailing(t: string, b: string)
    requires AllSpace(b) && Trimmed(t)
    ensures Strip(t + b) == t
    decreases |b|
  {
    var s := t + b;
    if b == [] {
      assert s == t;
    } else if t == [] {
      assert s == b && s[1..] == t + b[1..];
      StripTrailing(t, b[1..]);
    } else {
      assert s[0] == t[0] && s[|s| - 1] == b[|b| - 1];
      assert s[..|s| - 1] == t + b[..|b| - 1];
      StripTrailing(t, b[..|b| - 1]);
    }
  }

  /** `strip()` removes exactly the surrounding whitespace: a trimmed text
      padded with whitespace on both sides strips back to itself. */
  lemma StripPadded(a: string, t: string, b: string)
    requires AllSpace(a) && AllSpace(b) && Trimmed(t)
    ensures Strip(a + t + b) == t
  {
    assert a + t + b == a + (t + b);
    StripLeading(a, t + b);
    StripTrailing(t, b);
  }

  /** Stripping twice is stripping once. */
  lemma StripIdempotent(s: string)
    ensures Strip(Strip(s)) == Strip(s)
  {
    var r := Strip(s);
    assert [] + r + [] == r;
    StripPadded([], r, []);
  }

  /** `[piece.strip() for piece in s.split(sep)]`: the pieces between
      separators, each stripped. */
  function StripPieces(s: string, sep: char): (ps: seq<string>)
    ensures |ps| == |Split(s, sep)|
  {
    var parts := Split(s, sep);
    seq(|parts|, k requires 0 <= k < |parts| => Strip(parts[k]))
  }

  /** Every stripped piece is trimmed and free of the separator. */
  lemma StripPiecesShape(s: string, sep: char, k: nat)
    requires k < |StripPieces(s, sep)|
    ensures Trimmed(StripPieces(s, sep)[k]) && sep !in StripPieces(s, sep)[k]
  {
    var parts := Split(s, sep);
    if sep in StripPieces(s, sep)[k] {
      StripKeeps(parts[k], sep);
    }
  }

  /** Pieces written without surrounding whitespace or separators are
      recovered exactly from their join. */
  lemma StripPiecesJoin(pieces: seq<string>, sep: char)
    requires |pieces| >= 1
    requires forall k :: 0 <= k < |pieces| ==> Trimmed(pieces[k]) && sep !in pieces[k]
    ensures StripPieces(Join(pieces, sep), sep) == pieces
  {
    SplitJoin(pieces, sep);
    forall k | 0 <= k < |pieces| ensures Strip(pieces[k]) == pieces[k] {
      assert [] + pieces[k] + [] == pieces[k];
      StripPadded([], pieces[k], []);
    }
  }

  // ---------------------------------------------------------------------------
  // s.split() without a separator

  /** Length of the leading run of non-whitespace characters. */
  function WordLength(s: string): (k: nat)
    ensures k <= |s|
    ensures s != [] && !IsSpace(s[0]) ==> k >= 1
  {
    if s == [] || IsSpace(s[0]) then 0 else 1 + WordLength(s[1..])
  }

  /** The run ends at whitespace or at the end of the text. */
  lemma {:induction false} WordLengthShape(s: string)
    ensures NoSpace(s[..WordLength(s)])
    ensures WordLength(s) == |s| || IsSpace(s[WordLength(s)])
  {
    if s != [] && !IsSpace(s[0]) {
      WordLengthShape(s[1..]);
      var k := WordLength(s);
      assert s[..k] == [s[0]] + s[1..][..k - 1];
    }
  }

  /** Python's `s.split()`: the maximal runs of non-whitespace characters, in
      order; whitespace of any length separates them and none is returned. */
  function Words(s: string): seq<string>
    decreases |s|
  {
    if s == [] then []
    else if IsSpace(s[0]) then Words(s[1..])
    else
      var k := WordLength(s);
      [s[..k]] + Words(s[k..])
  }

  /** Every word is non-empty and free of whitespace. */
  lemma {:induction false} WordsShape(s: string, w: string)
    requires w in Words(s)
    ensures w != [] && NoSpace(w)
    decreases |s|
  {
    if IsSpace(s[0]) {
      WordsShape(s[1..], w);
    } else {
      var k := WordLength(s);
      if w == s[..k] {
        WordLengthShape(s);
      } else {
        WordsShape(s[k..], w);
      }
    }
  }

  /** The non-whitespace characters of `s`, in order. */
  function Visible(s: string): string {
    if s == [] then [] else (if IsSpace(s[0]) then [] else [s[0]]) + Visible(s[1..])
  }

  function Concat(ws: seq<string>): string {
    if ws == [] then [] else ws[0] + Concat(ws[1..])
  }

  lemma {:induction false} VisibleAppend(a: string, b: string)
    ensures Visible(a + b) == Visible(a) + Visible(b)
  {
    if a != [] {
      assert (a + b)[1..] == a[1..] + b;
      VisibleAppend(a[1..], b);
    } else {
      assert a + b == b;
    }
  }

  lemma {:induction false} VisibleNoSpace(a: string)
    requires NoSpace(a)
    ensures Visible(a) == a
  {
    if a != [] {
      VisibleNoSpace(a[1..]);
    }
  }

  /** `split()` keeps every visible character and nothing else: the words put
      back together are the text with its whitespace removed. */
  lemma {:induction false} WordsKeepVisible(s: string)
    ensures Concat(Words(s)) == Visible(s)
    decreases |s|
  {
    if s != [] {
      if IsSpace(s[0]) {
        WordsKeepVisible(s[1..]);
      } else {
        var k := WordLength(s);
        WordLengthShape(s);
        WordsKeepVisible(s[k..]);
        assert s == s[..k] + s[k..];
        VisibleAppend(s[..k], s[k..]);
        VisibleNoSpace(s[..k]);
        assert ([s[..k]] + Words(s[k..]))[1..] == Words(s[k..]);
      }
    }
  }

  /** Every character of a word comes from the text. */
  lemma {:induction false} WordsKeep(s: string, w: string, c: char)
    requires w in Words(s) && c in w
    ensures c in s
    decreases |s|
  {
    if IsSpace(s[0]) {
      WordsKeep(s[1..], w, c);
    } else {
      var k := WordLength(s);
      if w != s[..k] {
        WordsKeep(s[k..], w, c);
      }
    }
  }

  /** A run of non-whitespace ending at whitespace or at the end is the
      leading word. */
  lemma {:induction false} WordLengthOf(a: string, r: string)
    requires NoSpace(a) && (r == [] || IsSpace(r[0]))
    ensures WordLength(a + r) == |a|
  {
    if a != [] {
      assert (a + r)[0] == a[0];
      assert (a + r)[1..] == a[1..] + r;
      WordLengthOf(a[1..], r);
    } else {
      assert a + r == r;
    }
  }

  /** `split()` breaks at whitespace: a word followed by a whitespace
      character is the first word, and the rest is split on its own. */
  lemma WordsBreak(a: string, c: char, b: string)
    requires a != [] && NoSpace(a) && IsSpace(c)
    ensures Words(a + [c] + b) == [a] + Words(b)
  {
    var s := a + [c] + b;
    assert s == a + ([c] + b);
    WordLengthOf(a, [c] + b);
    assert s[0] == a[0];
    assert s[..|a|] == a;
    assert s[|a|..] == [c] + b;
    assert ([c] + b)[1..] == b;
  }

  /** A non-empty text without whitespace is one word. */
  lemma WordsOfWord(s: string)
    requires s != [] && NoSpace(s)
    ensures Words(s) == [s]
  {
    var k := WordLength(s);
    WordLengthShape(s);
    assert k == |s|;
    assert s[..k] == s;
  }

  /** Non-empty words without whitespace, joined by single spaces, are split
      back out exactly by `split()`. */
  lemma {:induction false} WordsJoin(ws: seq<string>)
    requires |ws| >= 1
    requires forall k :: 0 <= k < |ws| ==> ws[k] != [] && NoSpace(ws[k])
    ensures Words(Join(ws, ' ')) == ws
  {
    if |ws| == 1 {
      WordsOfWord(ws[0]);
    } else {
      WordsJoin(ws[1..]);
      assert IsSpace(' ');
      WordsBreak(ws[0], ' ', Join(ws[1..], ' '));
      assert ws == [ws[0]] + ws[1..];
    }
  }

  // ---------------------------------------------------------------------------
  // p in t

  /** `p` occurs in `t` starting at position `i`. */
  predicate OccursAt(t: string, p: string, i: int) {
    0 <= i && i + |p| <= |t| && t[i..i + |p|] == p
  }

  /** `p` occurs somewhere in `t`. */
  ghost predicate Occurs(t: string, p: string) {
    exists i :: OccursAt(t, p, i)
  }

  /** Python's substring test `p in t`. */
  predicate Contains(t: string, p: string)
    decreases |t|
  {
    (|p| <= |t| && t[..|p|] == p) || (t != [] && Contains(t[1..], p))
  }

  /** An occurrence at the front is a matching prefix. */
  lemma OccursAtFront(t: string, p: string)
    ensures OccursAt(t, p, 0) <==> |p| <= |t| && t[..|p|] == p
  {
    if |p| <= |t| {
      assert t[0..|p|] == t[..|p|];
    }
  }

  /** An occurrence in the tail of `t` is an occurrence in `t` one place on. */
  lemma OccursAtShift(t: string, p: string, i: int)
    requires t != [] && 0 <= i
    ensures OccursAt(t[1..], p, i) <==> OccursAt(t, p, i + 1)
  {
    if i + 1 + |p| <= |t| {
      assert t[1..][i..i + |p|] == t[i + 1..i + 1 + |p|];
    }
  }

  /** `p in t` holds exactly when `p` occurs somewhere in `t`. */
  lemma {:induction false} ContainsIff(t: string, p: string)
    ensures Contains(t, p) <==> Occurs(t, p)
    decreases |t|
  {
    OccursAtFront(t, p);
    if |p| <= |t| && t[..|p|] == p {
    } else if t == [] {
    } else {
      ContainsIff(t[1..], p);
      if Occurs(t[1..], p) {
        var i :| OccursAt(t[1..], p, i);
        OccursAtShift(t, p, i);
      }
      if Occurs(t, p) {
        var i :| OccursAt(t, p, i);
        OccursAtShift(t, p, i - 1);
      }
    }
  }

  /** The empty text is part of every text. */
  lemma ContainsEmpty(t: string)
    ensures Contains(t, [])
  {
    assert t[..0] == [];
  }

  // ---------------------------------------------------------------------------
  // int(s)

  predicate IsDigit(c: char) {
    '0' <= c <= '9'
  }

  /** One or more ASCII decimal digits. */
  predicate IsDigits(ds: string) {
    |ds| >= 1 && forall k :: 0 <= k < |ds| ==> IsDigit(ds[k])
  }

  /** What `int()` accepts once the text is stripped: an optional sign and digits. */
  predicate IsIntLiteral(s: string) {
    IsDigits(s) || (|s| >= 1 && (s[0] == '+' || s[0] == '-') && IsDigits(s[1..]))
  }

  /** The number written by the decimal digits `ds`, most significant first. */
  function DigitsValue(ds: string): nat
    requires forall k :: 0 <= k < |ds| ==> IsDigit(ds[k])
  {
    if ds == [] then 0
    else
      var last := ds[|ds| - 1];
      assert IsDigit(last);
      DigitsValue(ds[..|ds| - 1]) * 10 + (last as int - '0' as int)
  }

  /** Python's `int(s)` on stripped text: a ValueError for anything but an
      optional sign followed by decimal digits. */
  function ParseInt(s: string): (r: Result<int>)
    ensures r.Ok? <==> IsIntLiteral(s)
    ensures r.Err? ==> r.failure == InvalidInteger
  {
    if IsDigits(s) then Ok(DigitsValue(s))
    else if |s| >= 1 && s[0] == '-' && IsDigits(s[1..]) then Ok(0 - DigitsValue(s[1..]) as int)
    else if |s| >= 1 && s[0] == '+' && IsDigits(s[1..]) then Ok(DigitsValue(s[1..]))
    else Err(InvalidInteger)
  }

  /** Python's `str(n)` for a natural number. */
  function ShowNat(n: nat): (ds: string)
    ensures IsDigits(ds)
  {
    var d := ['0' + (n % 10) as char];
    if n < 10 then d else ShowNat(n / 10) + d
  }

  /** Python's `str(n)`. */
  function ShowInt(n: int): string {
    if n < 0 then "-" + ShowNat(-n) else ShowNat(n)
  }

  lemma {:induction false} DigitsValueShowNat(n: nat)
    ensures DigitsValue(ShowNat(n)) == n
  {
    var ds := ShowNat(n);
    if n >= 10 {
      DigitsValueShowNat(n / 10);
      assert ds[..|ds| - 1] == ShowNat(n / 10);
    }
  }

  /** Leading zeros do not change the value: `int("007") == 7`. */
  lemma {:induction false} LeadingZero(ds: string)
    requires forall k :: 0 <= k < |ds| ==> IsDigit(ds[k])
    ensures DigitsValue("0" + ds) == DigitsValue(ds)
  {
    if ds != [] {
      var init := ds[..|ds| - 1];
      assert ("0" + ds)[..|"0" + ds| - 1] == "0" + init;
      LeadingZero(init);
    }
  }

  /** A `+` sign reads as the digits after it: `int("+5") == 5`. */
  lemma PlusDigits(ds: string)
    requires IsDigits(ds)
    ensures ParseInt("+" + ds) == Ok(DigitsValue(ds))
  {
    var s := "+" + ds;
    assert s[0] == '+' && !IsDigit(s[0]);
    assert s[1..] == ds;
  }

  /** A `-` sign negates the digits after it: `int("-0") == 0`. */
  lemma MinusDigits(ds: string)
    requires IsDigits(ds)
    ensures ParseInt("-" + ds) == Ok(0 - DigitsValue(ds) as int)
  {
    var s := "-" + ds;
    assert s[0] == '-' && !IsDigit(s[0]);
    assert s[1..] == ds;
  }

  /** `int(str(n)) == n` for every integer. */
  lemma ParseShow(n: int)
    ensures ParseInt(ShowInt(n)) == Ok(n)
  {
    if n < 0 {
      DigitsValueShowNat(-n);
      assert ("-" + ShowNat(-n))[1..] == ShowNat(-n);
    } else {
      DigitsValueShowNat(n);
    }
  }
}
