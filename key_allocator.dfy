/** The key allocator of the scratchpad: `makeUniqueKey` turns a requested
    block name into a key that no existing block uses.  A trailing
    "<whitespace><digits>" suffix of the name is recognised by the regular
    expression ^(.+)\s(\d+)$ and dropped to obtain the stem; the name itself is
    used when it is free, and otherwise "stem 1", "stem 2", ... are probed in
    order. */
module KeyAllocator {
  import opened Wrappers

  // ---------------------------------------------------------------------------
  // Character classes of JavaScript regular expressions (no `u` flag)
  // ---------------------------------------------------------------------------

  /** `\d`: the ASCII digits. */
  predicate IsDigit(c: char)
  {
    '0' <= c <= '9'
  }

  /** The characters that `.` does not match (no `s` flag). */
  predicate IsLineTerminator(c: char)
    ensures IsDigit(c) || c == ' ' ==> !IsLineTerminator(c)
  {
    c == '\n' || c == '\r' || c == '\U{2028}' || c == '\U{2029}'
  }

  /** `\s`: JavaScript's WhiteSpace and LineTerminator characters. */
  predicate IsSpace(c: char)
    ensures IsDigit(c) ==> !IsSpace(c)
    ensures IsLineTerminator(c) ==> IsSpace(c)
  {
    c == '\t' || c == '\n' || c == '\U{000B}' || c == '\U{000C}' || c == '\r' || c == ' '
    || c == '\U{00A0}' || c == '\U{1680}' || ('\U{2000}' <= c <= '\U{200A}')
    || c == '\U{2028}' || c == '\U{2029}' || c == '\U{202F}' || c == '\U{205F}'
    || c == '\U{3000}' || c == '\U{FEFF}'
  }

  // ---------------------------------------------------------------------------
  // The regular expression ^(.+)\s(\d+)$
  // ---------------------------------------------------------------------------

  /** The regular expression matches all of `s` with its `\s` at index `i`:
      group 1 is s[..i] (one or more non-line-terminators), then one `\s`, then
      group 2 is s[i+1..] (one or more digits).  Backtracking is irrelevant:
      the only split that can fit sits just before the trailing run of
      digits. */
  ghost predicate SuffixMatchAt(s: string, i: int)
    ensures SuffixMatchAt(s, i) ==> i == DigitRunStart(s) - 1
  {
    && 1 <= i && i + 1 < |s|
    && (forall k :: 0 <= k < i ==> !IsLineTerminator(s[k]))
    && IsSpace(s[i])
    && (forall k :: i < k < |s| ==> IsDigit(s[k]))
  }

  /** Where the maximal run of digits at the end of `s` begins. */
  function DigitRunStart(s: string): (j: nat)
    ensures j <= |s|
    ensures forall k :: j <= k < |s| ==> IsDigit(s[k])
    ensures j == 0 || !IsDigit(s[j - 1])
  {
    if |s| == 0 || !IsDigit(s[|s| - 1]) then |s| else DigitRunStart(s[..|s| - 1])
  }

  /** The index of the separating `\s` when the regular expression matches,
      None when `re.exec` returns null. */
  function SuffixMatch(s: string): (m: Option<nat>)
    ensures m.Some? ==> SuffixMatchAt(s, m.value)
    ensures m.None? ==> forall i :: !SuffixMatchAt(s, i)
  {
    var j := DigitRunStart(s);
    if 2 <= j < |s| && IsSpace(s[j - 1]) && (forall k :: 0 <= k < j - 1 ==> !IsLineTerminator(s[k])) then
      Some(j - 1)
    else
      None
  }

  /** `stemmedNewName`: group 1 of the match, or the whole name. */
  function Stem(name: string): (stem: string)
    ensures forall i :: SuffixMatchAt(name, i) ==> stem == name[..i]
    ensures (forall i :: !SuffixMatchAt(name, i)) ==> stem == name
  {
    match SuffixMatch(name)
    case Some(i) => name[..i]
    case None => name
  }

  // ---------------------------------------------------------------------------
  // Decimal rendering of the probe counter (`${nameIndex}`)
  // ---------------------------------------------------------------------------

  /** The character that renders digit `d`; reading it back gives `d`. */
  function DigitChar(d: nat): (c: char)
    requires d < 10
    ensures IsDigit(c)
    ensures DigitValue(c) == d
  {
    "0123456789"[d]
  }

  /** The value of a digit character. */
  function DigitValue(c: char): nat
  {
    if IsDigit(c) then (c as int - '0' as int) else 0
  }

  /** How JavaScript prints a non-negative integer: decimal, no leading zeros. */
  function NatToString(n: nat): (s: string)
    ensures |s| >= 1
    ensures forall k :: 0 <= k < |s| ==> IsDigit(s[k])
    ensures |s| > 1 ==> s[0] != '0'
  {
    if n < 10 then [DigitChar(n)] else NatToString(n / 10) + [DigitChar(n % 10)]
  }

  /** Reads back a string of decimal digits. */
  function ParseDecimal(s: string): nat
  {
    if s == [] then 0 else ParseDecimal(s[..|s| - 1]) * 10 + DigitValue(s[|s| - 1])
  }

  /** Rendering and reading back decimal numbers are inverse. */
  lemma {:induction false} ParseRendered(n: nat)
    ensures ParseDecimal(NatToString(n)) == n
  {
    var s := NatToString(n);
    if n < 10 {
      assert s[..|s| - 1] == [];
    } else {
      assert s[..|s| - 1] == NatToString(n / 10);
      ParseRendered(n / 10);
    }
  }

  /** Different counters give different renderings. */
  lemma RenderingInjective(a: nat, b: nat)
    ensures NatToString(a) == NatToString(b) ==> a == b
  {
    ParseRendered(a);
    ParseRendered(b);
  }

  // ---------------------------------------------------------------------------
  // Probing
  // ---------------------------------------------------------------------------

  /** The n-th probe, `${stemmedNewName} ${nameIndex}`. */
  function Probe(stem: string, n: nat): (p: string)
    ensures |p| == |stem| + 1 + |NatToString(n)|
    ensures p[..|stem|] == stem && p[|stem|] == ' ' && p[|stem| + 1..] == NatToString(n)
    ensures |stem| >= 1 && (forall k :: 0 <= k < |stem| ==> !IsLineTerminator(stem[k])) ==>
      SuffixMatchAt(p, |stem|)
  {
    stem + " " + NatToString(n)
  }

  /** Two probes of one stem coincide only for the same counter. */
  lemma ProbeInjective(stem: string, a: nat, b: nat)
    ensures Probe(stem, a) == Probe(stem, b) ==> a == b
  {
    if Probe(stem, a) == Probe(stem, b) {
      var p := |stem| + 1;
      assert NatToString(a) == Probe(stem, a)[p..];
      assert NatToString(b) == Probe(stem, b)[p..];
      RenderingInjective(a, b);
    }
  }

  /** The set {stem 1, ..., stem n}. */
  ghost function ProbeSet(stem: string, n: nat): (ps: set<string>)
    ensures |ps| == n
    ensures forall m: nat :: Probe(stem, m) in ps <==> 1 <= m <= n
    ensures forall x :: x in ps ==> exists m: nat :: 1 <= m <= n && x == Probe(stem, m)
  {
    if n == 0 then {}
    else
      var prev := ProbeSet(stem, n - 1);
      forall m: nat ensures Probe(stem, m) == Probe(stem, n) ==> m == n {
        ProbeInjective(stem, m, n);
      }
      prev + {Probe(stem, n)}
  }

  lemma SeqElementsBound(xs: seq<string>)
    ensures |set x | x in xs| <= |xs|
  {
    if xs != [] {
      SeqElementsBound(xs[1..]);
      assert (set x | x in xs) == (set x | x in xs[1..]) + {xs[0]};
    }
  }

  lemma SubsetBound(a: set<string>, b: set<string>)
    requires a <= b
    ensures |a| <= |b|
  {
    if a != {} {
      var x :| x in a;
      SubsetBound(a - {x}, b - {x});
    }
  }

  /** Pigeonhole: n distinct probes all occupied need at least n existing names. */
  lemma ProbesBounded(stem: string, existing: seq<string>, n: nat)
    requires forall m :: 1 <= m <= n ==> Probe(stem, m) in existing
    ensures n <= |existing|
  {
    var ps := ProbeSet(stem, n);
    var es := set x | x in existing;
    forall x | x in ps ensures x in es {
      var m: nat :| 1 <= m <= n && x == Probe(stem, m);
    }
    SubsetBound(ps, es);
    SeqElementsBound(existing);
  }

  /** The first free probe counter from `n` on, given that all from 1 to n-1
      are taken. */
  function FirstFreeIndex(stem: string, existing: seq<string>, n: nat): (k: nat)
    requires n >= 1
    requires forall m :: 1 <= m < n ==> Probe(stem, m) in existing
    ensures k >= n
    ensures Probe(stem, k) !in existing
    ensures forall m :: 1 <= m < k ==> Probe(stem, m) in existing
    decreases |existing| + 1 - n
  {
    if Probe(stem, n) !in existing then n
    else
      ProbesBounded(stem, existing, n);
      FirstFreeIndex(stem, existing, n + 1)
  }

  /** The key `makeUniqueKey(newName, existingNames)` returns. */
  function UniqueKey(newName: string, existing: seq<string>): (key: string)
    ensures key !in existing
    ensures newName !in existing ==> key == newName
    ensures newName in existing ==>
      exists n: nat :: n >= 1 && key == Probe(Stem(newName), n)
        && forall m :: 1 <= m < n ==> Probe(Stem(newName), m) in existing
  {
    if newName !in existing then newName else Probe(Stem(newName), FirstFreeIndex(Stem(newName), existing, 1))
  }

  /** Re-stemming a probed name gives its stem back, so allocating again from
      "stem n" probes the same family of names. */
  lemma StemOfProbe(stem: string, n: nat)
    requires |stem| >= 1
    requires forall k :: 0 <= k < |stem| ==> !IsLineTerminator(stem[k])
    ensures Stem(Probe(stem, n)) == stem
  {
    var p := Probe(stem, n);
    assert p[|stem|] == ' ';
    assert forall k :: |stem| < k < |p| ==> p[k] == NatToString(n)[k - |stem| - 1];
    assert SuffixMatchAt(p, |stem|);
    assert p[..|stem|] == stem;
  }

  /** "Task" is stem and name at once. */
  lemma StemOfTask()
    ensures Stem("Task") == "Task"
  {
    assert DigitRunStart("Task") == 4;
  }

  /** A taken name without a number gets the first free probe. */
  lemma ExamplesOfCollision()
    ensures UniqueKey("Task", ["Task"]) == "Task 1"
    ensures UniqueKey("Task", ["Task", "Task 1"]) == "Task 2"
  {
    StemOfTask();
    assert Probe("Task", 1) == "Task 1";
    assert Probe("Task", 2) == "Task 2";
    assert "Task 1" != "Task" && "Task 2" != "Task" && "Task 2" != "Task 1";
  }

  /** A taken name with a number is stripped and probed again from 1. */
  lemma ExampleOfRestart()
    ensures UniqueKey("Task 3", ["Task 3"]) == "Task 1"
  {
    assert Probe("Task", 3) == "Task 3";
    assert Stem("Task 3") == "Task" by { StemOfProbe("Task", 3); }
    assert Probe("Task", 1) == "Task 1";
    assert "Task 1" !in ["Task 3"] by { assert "Task 1"[5] != "Task 3"[5]; }
    assert FirstFreeIndex("Task", ["Task 3"], 1) == 1;
  }

  /** Examples; probing restarts at 1 even when the requested name carries a
      number. */
  lemma Examples()
    ensures UniqueKey("Task", ["Task"]) == "Task 1"
    ensures UniqueKey("Task", ["Task", "Task 1"]) == "Task 2"
    ensures UniqueKey("Task 3", []) == "Task 3"
    ensures UniqueKey("Task 3", ["Task 3"]) == "Task 1"
  {
    ExamplesOfCollision();
    ExampleOfRestart();
  }

  /** A probe that is free and has all smaller probes taken is the unique such. */
  lemma MinimalFreeUnique(stem: string, existing: seq<string>, a: nat, b: nat)
    requires a >= 1 && Probe(stem, a) !in existing && forall m :: 1 <= m < a ==> Probe(stem, m) in existing
    requires b >= 1 && Probe(stem, b) !in existing && forall m :: 1 <= m < b ==> Probe(stem, m) in existing
    ensures a == b
  {
  }

  /** `makeUniqueKey`: the `for (;;)` loop of the source, with the counter and
      the candidate it updates. */
  method MakeUniqueKey(newName: string, existingNames: seq<string>) returns (key: string)
    ensures key == UniqueKey(newName, existingNames)
    ensures key !in existingNames
  {
    var nameIndex: nat := 0;
    var candidateName := newName;
    var stemmedNewName := Stem(newName);
    while true
      invariant nameIndex == 0 ==> candidateName == newName
      invariant nameIndex >= 1 ==> newName in existingNames && candidateName == Probe(stemmedNewName, nameIndex)
      invariant forall m :: 1 <= m < nameIndex ==> Probe(stemmedNewName, m) in existingNames
      decreases |existingNames| + 1 - nameIndex
    {
      if candidateName !in existingNames {
        if nameIndex >= 1 {
          var k := FirstFreeIndex(stemmedNewName, existingNames, 1);
          MinimalFreeUnique(stemmedNewName, existingNames, k, nameIndex);
        }
        return candidateName;
      }
      ProbesBounded(stemmedNewName, existingNames, nameIndex);
      nameIndex := nameIndex + 1;
      candidateName := Probe(stemmedNewName, nameIndex);
    }
  }
}
