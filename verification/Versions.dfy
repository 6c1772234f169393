/** Comparison of dotted versions (src/bitcoin.py, `_version_parts`). The regular
    expression that finds the numbers in a text is a parameter of the host. */
module Versions {
  ghost function Trim(parts: seq<nat>): seq<nat> {
    if parts != [] && parts[|parts| - 1] == 0 then Trim(parts[..|parts| - 1]) else parts
  }

  /** `_version_parts` after the numbers have been read: trailing zeros are popped. */
  method VersionParts(numbers: seq<nat>) returns (parts: seq<nat>)
    ensures parts == Trim(numbers)
  {
    parts := numbers;
    while parts != [] && parts[|parts| - 1] == 0
      invariant Trim(parts) == Trim(numbers)
    {
      parts := parts[..|parts| - 1];
    }
  }

  ghost function Component(parts: seq<nat>, i: nat): nat {
    if i < |parts| then parts[i] else 0
  }

  lemma {:induction false} TrimKeepsComponents(parts: seq<nat>)
    ensures Trim(parts) <= parts
    ensures Trim(parts) == [] || Trim(parts)[|Trim(parts)| - 1] != 0
    ensures forall i: nat :: Component(Trim(parts), i) == Component(parts, i)
  {
    if parts != [] && parts[|parts| - 1] == 0 {
      TrimKeepsComponents(parts[..|parts| - 1]);
    }
  }

  /** Two versions count as the same exactly when they agree in every component, a
      missing component being zero. */
  lemma SameVersion(a: seq<nat>, b: seq<nat>)
    ensures Trim(a) == Trim(b) <==> forall i: nat :: Component(a, i) == Component(b, i)
  {
    var s, t := Trim(a), Trim(b);
    TrimKeepsComponents(a);
    TrimKeepsComponents(b);
    if s != t {
      var i: nat;
      if |s| < |t| {
        i := |t| - 1;
      } else if |t| < |s| {
        i := |s| - 1;
      } else {
        i :| i < |s| && s[i] != t[i];
      }
      assert Component(s, i) != Component(t, i);
      assert Component(a, i) != Component(b, i);
    }
  }
}
