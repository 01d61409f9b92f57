/** The exit-code specification of the step "the command exit code is
    {values}": a comma-separated list whose pieces are single integers
    ("3") or inclusive ranges ("100-102"), e.g. "1,3,100-102". */
module ExitCodes {
  import opened Base
  import opened Text

  /** Python's `range(lo, hi + 1)`: the integers from `lo` to `hi` in
      ascending order, nothing when `lo > hi`. */
  function Range(lo: int, hi: int): (r: seq<int>)
    ensures |r| == if lo <= hi then hi - lo + 1 else 0
    ensures forall k :: 0 <= k < |r| ==> r[k] == lo + k
    decreases hi - lo
  {
    if lo > hi then [] else [lo] + Range(lo + 1, hi)
  }

  /** A range holds exactly the integers between its bounds. */
  lemma RangeMembers(lo: int, hi: int, x: int)
    ensures x in Range(lo, hi) <==> lo <= x <= hi
  {
    if lo <= x <= hi {
      assert Range(lo, hi)[x - lo] == x;
    }
  }

  /** What one comma-separated piece contributes: a piece holding `-` is cut
      at its first `-` into two bounds, each stripped and read by `int()`,
      and contributes the range between them; any other piece is stripped
      and read as one integer. A bound or number `int()` refuses is an error. */
  function TokenCodes(part: string): (r: Result<seq<int>>)
    ensures r.Err? ==> r.failure == InvalidInteger
  {
    if '-' in part then
      var (lower, upper) := SplitOnce(part, '-');
      var lo := ParseInt(Strip(lower));
      var hi := ParseInt(Strip(upper));
      if lo.Err? then Err(lo.failure)
      else if hi.Err? then Err(hi.failure)
      else Ok(Range(lo.value, hi.value))
    else
      var v := ParseInt(Strip(part));
      if v.Err? then Err(v.failure) else Ok([v.value])
  }

  /** The contributions of the pieces, concatenated in order; the first
      piece that is an error makes the whole list an error. */
  function Gather(rs: seq<Result<seq<int>>>): Result<seq<int>> {
    if rs == [] then Ok([])
    else Combine(Gather(rs[..|rs| - 1]), rs[|rs| - 1])
  }

  /** `codes.extend(...)` after earlier pieces, with errors propagating. */
  function Combine(a: Result<seq<int>>, b: Result<seq<int>>): Result<seq<int>> {
    if a.Err? then a else if b.Err? then b else Ok(a.value + b.value)
  }

  /** What each comma-separated piece of `values` contributes, in order. */
  function Contributions(values: string): (rs: seq<Result<seq<int>>>)
    ensures |rs| == |Split(values, ',')|
  {
    var parts := Split(values, ',');
    seq(|parts|, k requires 0 <= k < |parts| => TokenCodes(parts[k]))
  }

  /** The contribution of piece `k` is what `TokenCodes` makes of it. */
  lemma ContributionAt(values: string, k: nat)
    requires k < |Split(values, ',')|
    ensures Contributions(values)[k] == TokenCodes(Split(values, ',')[k])
  {
  }

  /** The list of acceptable exit codes written by `values`. */
  function ParseExitCodes(values: string): Result<seq<int>> {
    Gather(Contributions(values))
  }

  /** A piece `lower-upper` whose bounds `int()` reads as `lo` and `hi`
      contributes exactly `lo..hi`, in ascending order; only the first `-`
      separates the bounds, so `upper` may itself start with a sign. */
  lemma RangeToken(lower: string, upper: string, lo: int, hi: int)
    requires '-' !in lower
    requires ParseInt(Strip(lower)) == Ok(lo) && ParseInt(Strip(upper)) == Ok(hi)
    ensures TokenCodes(lower + "-" + upper) == Ok(Range(lo, hi))
    ensures lo > hi ==> TokenCodes(lower + "-" + upper) == Ok([])
  {
    SplitOnceOf(lower, upper, '-');
  }

  /** A piece without `-` contributes the one integer `int()` reads from it,
      and is an error exactly when `int()` refuses it. */
  lemma NumberToken(part: string)
    requires '-' !in part
    ensures TokenCodes(part).Ok? <==> IsIntLiteral(Strip(part))
    ensures TokenCodes(part).Ok? ==> TokenCodes(part).value == [ParseInt(Strip(part)).value]
  {
  }

  /** A piece holding `-` is valid exactly when `int()` accepts both
      stripped bounds; a blank bound ("5-"), a bare sign ("+-3", "1-+") or
      any non-digit ("a-3") makes it an invalid-integer error. */
  lemma RangeTokenOk(part: string)
    requires '-' in part
    ensures TokenCodes(part).Ok? <==>
      IsIntLiteral(Strip(SplitOnce(part, '-').0)) && IsIntLiteral(Strip(SplitOnce(part, '-').1))
    ensures TokenCodes(part).Err? ==> TokenCodes(part) == Err(InvalidInteger)
  {
  }

  /** Malformed range pieces: a blank upper bound, a bare sign, a letter. */
  lemma MalformedRangePieces()
    ensures TokenCodes("5-") == Err(InvalidInteger)
    ensures TokenCodes("+-3") == Err(InvalidInteger)
    ensures TokenCodes("1-+") == Err(InvalidInteger)
    ensures TokenCodes("a-3") == Err(InvalidInteger)
  {
    BlankUpper();
    BareSignLower();
    BareSignUpper();
    LetterLower();
  }

  lemma BlankUpper()
    ensures TokenCodes("5-") == Err(InvalidInteger)
  {
    assert "5-" == "5" + "-" + [];
    SplitOnceOf("5", [], '-');
  }

  lemma BareSignLower()
    ensures TokenCodes("+-3") == Err(InvalidInteger)
  {
    assert "+-3" == "+" + "-" + "3";
    SplitOnceOf("+", "3", '-');
  }

  lemma BareSignUpper()
    ensures TokenCodes("1-+") == Err(InvalidInteger)
  {
    assert "1-+" == "1" + "-" + "+";
    SplitOnceOf("1", "+", '-');
  }

  lemma LetterLower()
    ensures TokenCodes("a-3") == Err(InvalidInteger)
  {
    assert "a-3" == "a" + "-" + "3";
    SplitOnceOf("a", "3", '-');
  }

  /** A piece whose text before the first `-` is blank, such as "-1" or
      " -3", has an empty lower bound, which `int()` refuses. */
  lemma BlankLowerBoundFails(part: string)
    requires '-' in part
    requires AllSpace(SplitOnce(part, '-').0)
    ensures TokenCodes(part) == Err(InvalidInteger)
  {
    var lower := SplitOnce(part, '-').0;
    assert lower + [] + [] == lower;
    StripPadded(lower, [], []);
  }

  lemma CombineAssoc(a: Result<seq<int>>, b: Result<seq<int>>, c: Result<seq<int>>)
    ensures Combine(Combine(a, b), c) == Combine(a, Combine(b, c))
  {
    if a.Ok? && b.Ok? && c.Ok? {
      assert a.value + b.value + c.value == a.value + (b.value + c.value);
    }
  }

  /** Gathering concatenated contribution lists is concatenating what each
      gathers: every piece contributes in order and independently. */
  lemma {:induction false} GatherAppend(p: seq<Result<seq<int>>>, q: seq<Result<seq<int>>>)
    ensures Gather(p + q) == Combine(Gather(p), Gather(q))
    decreases |q|
  {
    if q == [] {
      assert p + q == p;
      assert Gather(p).Err? || Gather(p).value + [] == Gather(p).value;
    } else {
      var q0 := q[..|q| - 1];
      GatherAppend(p, q0);
      assert (p + q)[..|p + q| - 1] == p + q0;
      assert (p + q)[|p + q| - 1] == q[|q| - 1];
      CombineAssoc(Gather(p), Gather(q0), q[|q| - 1]);
    }
  }

  /** The list is valid exactly when every contribution is, and then a code
      is in it exactly when some contribution holds it. */
  lemma {:induction false} GatherMembers(rs: seq<Result<seq<int>>>, x: int)
    ensures Gather(rs).Ok? <==> forall k :: 0 <= k < |rs| ==> rs[k].Ok?
    ensures Gather(rs).Ok? ==> (x in Gather(rs).value <==> exists k :: 0 <= k < |rs| && rs[k].Ok? && x in rs[k].value)
  {
    if rs != [] {
      var init := rs[..|rs| - 1];
      GatherMembers(init, x);
      assert forall k :: 0 <= k < |init| ==> init[k] == rs[k];
    }
  }

  /** The first invalid contribution decides the error. */
  lemma GatherStopsAtError(rs: seq<Result<seq<int>>>, i: nat)
    requires i < |rs| && Gather(rs[..i]).Ok? && rs[i].Err?
    ensures Gather(rs) == rs[i]
  {
    assert rs[..i + 1][..i] == rs[..i];
    GatherAppend(rs[..i + 1], rs[i + 1..]);
    assert rs[..i + 1] + rs[i + 1..] == rs;
  }

  /** `values` is valid exactly when every piece is, and then a code is
      accepted exactly when some piece contributes it. */
  lemma ParseExitCodesMembers(values: string, x: int)
    ensures var rs := Contributions(values);
      ParseExitCodes(values).Ok? <==> forall k :: 0 <= k < |rs| ==> rs[k].Ok?
    ensures var rs := Contributions(values);
      ParseExitCodes(values).Ok? ==>
        (x in ParseExitCodes(values).value <==> exists k :: 0 <= k < |rs| && rs[k].Ok? && x in rs[k].value)
  {
    GatherMembers(Contributions(values), x);
  }

  /** Every error of a gathered list is an invalid-integer error. */
  lemma {:induction false} GatherError(rs: seq<Result<seq<int>>>)
    requires forall k :: 0 <= k < |rs| ==> rs[k].Err? ==> rs[k].failure == InvalidInteger
    ensures Gather(rs).Err? ==> Gather(rs) == Err(InvalidInteger)
  {
    if rs != [] {
      GatherError(rs[..|rs| - 1]);
    }
  }

  /** A malformed list is rejected as `int()` rejects it: with a ValueError. */
  lemma ParseExitCodesError(values: string)
    ensures ParseExitCodes(values).Err? ==> ParseExitCodes(values) == Err(InvalidInteger)
  {
    GatherError(Contributions(values));
  }

  /** A valid contribution extends the codes gathered so far. */
  lemma GatherStep(rs: seq<Result<seq<int>>>, i: nat, codes: seq<int>, piece: seq<int>)
    requires i < |rs| && Gather(rs[..i]) == Ok(codes) && rs[i] == Ok(piece)
    ensures Gather(rs[..i + 1]) == Ok(codes + piece)
  {
    assert rs[..i + 1][..i] == rs[..i];
  }

  /** Python's loop over `values.split(',')`, appending or extending `codes`
      piece by piece; the first invalid piece stops it with a ValueError. */
  method CollectExitCodes(values: string) returns (r: Result<seq<int>>)
    ensures r == ParseExitCodes(values)
  {
    var codes: seq<int> := [];
    var parts := Split(values, ',');
    ghost var rs := Contributions(values);
    var i := 0;
    while i < |parts|
      invariant 0 <= i <= |parts|
      invariant Gather(rs[..i]) == Ok(codes)
    {
      var part := parts[i];
      ContributionAt(values, i);
      var piece: seq<int>;
      if '-' in part {
        var (lower, upper) := SplitOnce(part, '-');
        var lo := ParseInt(Strip(lower));
        if lo.Err? {
          GatherStopsAtError(rs, i);
          return Err(lo.failure);
        }
        var hi := ParseInt(Strip(upper));
        if hi.Err? {
          GatherStopsAtError(rs, i);
          return Err(hi.failure);
        }
        piece := Range(lo.value, hi.value);
      } else {
        var v := ParseInt(Strip(part));
        if v.Err? {
          GatherStopsAtError(rs, i);
          return Err(v.failure);
        }
        piece := [v.value];
      }
      GatherStep(rs, i, codes, piece);
      codes := codes + piece;
      i := i + 1;
    }
    assert rs[..i] == rs;
    r := Ok(codes);
  }

  /** The decimal text of a natural number reads back to it after `strip()`. */
  lemma StripShowNat(n: nat)
    ensures ParseInt(Strip(ShowInt(n))) == Ok(n)
  {
    var s := ShowInt(n);
    ParseShow(n);
    assert [] + s + [] == s;
    StripPadded([], s, []);
  }

  lemma NumberPiece(part: string, n: nat)
    requires '-' !in part && part == ShowInt(n)
    ensures TokenCodes(part) == Ok([n])
  {
    StripShowNat(n);
  }

  lemma ShowExample()
    ensures ShowInt(1) == "1" && ShowInt(3) == "3"
    ensures ShowInt(100) == "100" && ShowInt(102) == "102"
  {
  }

  lemma RangeExample()
    ensures Range(100, 102) == [100, 101, 102]
  {
    assert Range(102, 102) == [102];
    assert Range(101, 102) == [101, 102];
  }

  lemma RangePiece()
    ensures TokenCodes("100-102") == Ok([100, 101, 102])
  {
    assert "100-102" == "100" + "-" + "102";
    ShowExample();
    StripShowNat(100);
    StripShowNat(102);
    RangeToken("100", "102", 100, 102);
    RangeExample();
  }

  lemma ExampleSplit()
    ensures Split("1,3,100-102", ',') == ["1", "3", "100-102"]
  {
    var parts := ["1", "3", "100-102"];
    assert Join(parts, ',') == "1,3,100-102";
    SplitJoin(parts, ',');
  }

  lemma GatherThree(rs: seq<Result<seq<int>>>)
    requires |rs| == 3 && rs[0].Ok? && rs[1].Ok? && rs[2].Ok?
    ensures Gather(rs) == Ok(rs[0].value + rs[1].value + rs[2].value)
  {
    assert rs[..2][..1] == rs[..1] && rs[..1][..0] == [] && rs[..3] == rs;
    assert Gather(rs[..1]) == Ok([] + rs[0].value);
    assert [] + rs[0].value == rs[0].value;
  }

  lemma ConcatExample()
    ensures [1] + [3] + [100, 101, 102] == [1, 3, 100, 101, 102]
  {
  }

  lemma ExampleGather(values: string)
    requires Split(values, ',') == ["1", "3", "100-102"]
    ensures ParseExitCodes(values) == Ok([1, 3, 100, 101, 102])
  {
    var rs := Contributions(values);
    assert rs[0] == Ok([1]) by {
      ContributionAt(values, 0);
      ShowExample();
      NumberPiece("1", 1);
    }
    assert rs[1] == Ok([3]) by {
      ContributionAt(values, 1);
      ShowExample();
      NumberPiece("3", 3);
    }
    assert rs[2] == Ok([100, 101, 102]) by {
      ContributionAt(values, 2);
      RangePiece();
    }
    GatherThree(rs);
    ConcatExample();
  }

  /** The documented example: "1,3,100-102" accepts exactly 1, 3, 100, 101 and 102. */
  lemma DocumentedExample()
    ensures ParseExitCodes("1,3,100-102") == Ok([1, 3, 100, 101, 102])
  {
    ExampleSplit();
    ExampleGather("1,3,100-102");
  }
}
