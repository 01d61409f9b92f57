/** The check of the step "history userinstalled should": every package of
    the `Match` list must occur in the output of `dnf history userinstalled`
    as a plain substring, and no package of the `Not match` list may. */
module Userinstalled {
  import opened Base
  import opened Text

  /** The generator `pkgs_split`: the comma-separated packages, each stripped. */
  function PkgsSplit(pkgs: string): seq<string> {
    StripPieces(pkgs, ',')
  }

  /** The verdict on the output `text`: 'No output' when it is empty; a
      failure at the first `Match` package missing from it, then at the first
      `Not match` package present in it; a pass otherwise. */
  function UserinstalledOutcome(text: string, matchPkgs: string, notMatchPkgs: string): Outcome {
    var ms := PkgsSplit(matchPkgs);
    var ns := PkgsSplit(notMatchPkgs);
    if text == [] then Fail(NoOutput)
    else if exists k :: 0 <= k < |ms| && !Contains(text, ms[k]) then Fail(AssertionFailed)
    else Check(forall k :: 0 <= k < |ns| ==> !Contains(text, ns[k]))
  }

  /** The step passes exactly when the output is non-empty, every `Match`
      package occurs somewhere in it and no `Not match` package does. */
  lemma UserinstalledPassIff(text: string, matchPkgs: string, notMatchPkgs: string)
    ensures var ms, ns := PkgsSplit(matchPkgs), PkgsSplit(notMatchPkgs);
      UserinstalledOutcome(text, matchPkgs, notMatchPkgs) == Pass <==>
        text != []
        && (forall k :: 0 <= k < |ms| ==> Occurs(text, ms[k]))
        && (forall k :: 0 <= k < |ns| ==> !Occurs(text, ns[k]))
  {
    var ms, ns := PkgsSplit(matchPkgs), PkgsSplit(notMatchPkgs);
    forall k | 0 <= k < |ms| ensures Contains(text, ms[k]) == Occurs(text, ms[k]) {
      ContainsIff(text, ms[k]);
    }
    forall k | 0 <= k < |ns| ensures Contains(text, ns[k]) == Occurs(text, ns[k]) {
      ContainsIff(text, ns[k]);
    }
  }

  /** An empty `Not match` value names the empty package, which occurs in
      every output, so the step can then never pass. */
  lemma EmptyNotMatchNeverPasses(text: string, matchPkgs: string)
    ensures UserinstalledOutcome(text, matchPkgs, "") != Pass
  {
    assert PkgsSplit("")[0] == [];
    ContainsEmpty(text);
  }

  /** The step's two loops over `pkgs_split(...)`, asserting on each package. */
  method CheckUserinstalled(text: string, matchPkgs: string, notMatchPkgs: string) returns (o: Outcome)
    ensures o == UserinstalledOutcome(text, matchPkgs, notMatchPkgs)
  {
    if text == [] {
      return Fail(NoOutput);
    }
    var ms := PkgsSplit(matchPkgs);
    var i := 0;
    while i < |ms|
      invariant 0 <= i <= |ms|
      invariant forall k :: 0 <= k < i ==> Contains(text, ms[k])
    {
      if !Contains(text, ms[i]) {
        return Fail(AssertionFailed);
      }
      i := i + 1;
    }
    var ns := PkgsSplit(notMatchPkgs);
    var j := 0;
    while j < |ns|
      invariant 0 <= j <= |ns|
      invariant forall k :: 0 <= k < j ==> !Contains(text, ns[k])
    {
      if Contains(text, ns[j]) {
        return Fail(AssertionFailed);
      }
      j := j + 1;
    }
    o := Pass;
  }
}
