/** Unique names for generated object types: a root name, or a name with a numeric suffix. */
module TypeNames {
  import opened Options
  import opened Decimals

  const COUNTER_LIMIT: nat := 0x1_0000_0000

  function LastUnderscore(s: string): (position: Option<nat>)
    ensures match position
            case Some(p) => p < |s| && s[p] == '_' && forall i :: p < i < |s| ==> s[i] != '_'
            case None => '_' !in s
  {
    if s == "" then None
    else if s[|s| - 1] == '_' then Some(|s| - 1)
    else LastUnderscore(s[..|s| - 1])
  }

  /** Splits `root_digits` into the root and the counter; other names are their own root, with counter 0. */
  function ParseCounterSuffix(name: string): (result: (string, nat))
    ensures result.0 <= name
  {
    match LastUnderscore(name)
    case None => (name, 0)
    case Some(p) =>
      var prefix, digits := name[..p], name[p + 1..];
      if digits != "" && AllDigits(digits) && '\n' !in prefix && FromDecimal(digits) < COUNTER_LIMIT then
        (prefix, FromDecimal(digits))
      else (name, 0)
  }

  function Root(name: string): string {
    ParseCounterSuffix(name).0
  }

  function Counter(name: string): nat {
    ParseCounterSuffix(name).1
  }

  function Numbered(name: string, counter: nat): string {
    name + "_" + ToDecimal(counter)
  }

  /** The text after the last underscore. */
  lemma LastUnderscoreAt(root: string, rest: string)
    requires '_' !in rest
    ensures LastUnderscore(root + "_" + rest) == Some(|root|)
  {
    var name := root + "_" + rest;
    assert name[|root|] == '_';
    assert forall i :: |root| < i < |name| ==> name[i] == rest[i - |root| - 1];
  }

  lemma ParsedSuffix(root: string, digits: string)
    requires digits != "" && AllDigits(digits) && '\n' !in root && FromDecimal(digits) < COUNTER_LIMIT
    ensures ParseCounterSuffix(root + "_" + digits) == (root, FromDecimal(digits))
  {
    LastUnderscoreAt(root, digits);
    var name := root + "_" + digits;
    assert name[..|root|] == root && name[|root| + 1..] == digits;
  }

  /** A name has another root exactly if it is that root with a counter in digits. */
  lemma SuffixExact(name: string, root: string, counter: nat)
    ensures ParseCounterSuffix(name) == (root, counter) && root != name <==>
      counter < COUNTER_LIMIT && '\n' !in root
      && exists digits ::
           digits != "" && AllDigits(digits) && FromDecimal(digits) == counter && name == root + "_" + digits
  {
    if ParseCounterSuffix(name) == (root, counter) && root != name {
      var p := LastUnderscore(name).value;
      assert name == name[..p] + "_" + name[p + 1..];
    }
    if digits :| digits != "" && AllDigits(digits) && FromDecimal(digits) == counter && name == root + "_" + digits {
      if counter < COUNTER_LIMIT && '\n' !in root {
        ParsedSuffix(root, digits);
        assert |root| < |name|;
      }
    }
  }

  /** The first free name: the root if it is free, otherwise the first free numbered name. */
  ghost predicate IsUniqueName(taken: set<string>, desired: string, name: string) {
    var (root, counter) := ParseCounterSuffix(desired);
    && name !in taken
    && (|| name == root
        || (&& root in taken
            && exists k :: counter < k && name == Numbered(desired, k)
                 && forall j :: counter < j < k ==> Numbered(desired, j) in taken))
  }

  lemma NumberedInjective(name: string, j: nat, k: nat)
    requires Numbered(name, j) == Numbered(name, k)
    ensures j == k
  {
    var p := name + "_";
    assert ToDecimal(j) == Numbered(name, j)[|p|..] == Numbered(name, k)[|p|..] == ToDecimal(k);
    DecimalInjective(j, k);
  }

  /** There is exactly one first free name. */
  lemma UniqueNameDetermined(taken: set<string>, desired: string, a: string, b: string)
    requires IsUniqueName(taken, desired, a) && IsUniqueName(taken, desired, b)
    ensures a == b
  {
    var (root, counter) := ParseCounterSuffix(desired);
    if root in taken {
      var j :| counter < j && a == Numbered(desired, j)
        && forall i :: counter < i < j ==> Numbered(desired, i) in taken;
      var k :| counter < k && b == Numbered(desired, k)
        && forall i :: counter < i < k ==> Numbered(desired, i) in taken;
      assert j == k;
    }
  }

  // ----- the first free name as a function -----

  /** The desired name with the first number from `k` on that is free. */
  function FirstFree(taken: set<string>, desired: string, k: nat): (m: nat)
    ensures k <= m <= k + |taken| && Numbered(desired, m) !in taken
    ensures forall j :: k <= j < m ==> Numbered(desired, j) in taken
    decreases |taken|
  {
    if Numbered(desired, k) !in taken then k
    else
      var rest := taken - {Numbered(desired, k)};
      var m := FirstFree(rest, desired, k + 1);
      assert Numbered(desired, m) !in taken by {
        if Numbered(desired, m) == Numbered(desired, k) { NumberedInjective(desired, m, k); }
      }
      m
  }

  /** The unique name is a function of the taken names and the desired one. */
  function UniqueOf(taken: set<string>, desired: string): (name: string)
    ensures IsUniqueName(taken, desired, name)
  {
    var (root, counter) := ParseCounterSuffix(desired);
    if root !in taken then root else Numbered(desired, FirstFree(taken, desired, counter + 1))
  }

  ghost predicate TakenBetween(taken: set<string>, desired: string, start: nat, counter: nat) {
    forall j :: start < j < counter ==> Numbered(desired, j) in taken
  }

  lemma OneMoreTaken(taken: set<string>, desired: string, start: nat, counter: nat)
    requires TakenBetween(taken, desired, start, counter) && (counter > start ==> Numbered(desired, counter) in taken)
    ensures TakenBetween(taken, desired, start, counter + 1)
  {
  }

  /** The names are the root, and the desired name with numbers before the counter. */
  ghost predicate AreTried(names: set<string>, root: string, desired: string, start: nat, counter: nat) {
    forall n :: n in names ==> n == root || exists j :: start < j < counter && n == Numbered(desired, j)
  }

  lemma OneMoreTried(names: set<string>, root: string, desired: string, start: nat, counter: nat, name: string)
    requires AreTried(names, root, desired, start, counter) && start <= counter
    requires name == if counter == start then root else Numbered(desired, counter)
    ensures AreTried(names + {name}, root, desired, start, counter + 1)
  {
    forall n | n in names && n != root
      ensures exists j :: start < j < counter + 1 && n == Numbered(desired, j)
    {
      var j :| start < j < counter && n == Numbered(desired, j);
      assert start < j < counter + 1;
    }
  }

  method UniqueTypeName(existing: set<string>, added: set<string>, desired: string) returns (name: string)
    ensures IsUniqueName(existing + added, desired, name) && name == UniqueOf(existing + added, desired)
    ensures name !in existing && name !in added
  {
    ghost var taken := existing + added;
    var (root, counter) := ParseCounterSuffix(desired);
    ghost var start := counter;
    name := root;
    ghost var tried: set<string> := {};
    while name in existing || name in added
      invariant start <= counter
      invariant name == if counter == start then root else Numbered(desired, counter)
      invariant counter > start ==> root in taken
      invariant TakenBetween(taken, desired, start, counter)
      invariant tried <= taken
      invariant AreTried(tried, root, desired, start, counter)
      invariant counter == start ==> tried == {}
      decreases |taken - tried|
    {
      assert name !in tried by {
        if name in tried {
          assert |root| < |name|;
          var j :| start < j < counter && name == Numbered(desired, j);
          NumberedInjective(desired, j, counter);
        }
      }
      OneMoreTaken(taken, desired, start, counter);
      OneMoreTried(tried, root, desired, start, counter, name);
      ghost var before := taken - tried;
      tried := tried + {name};
      assert taken - tried == before - {name} && name in before;
      counter := counter + 1;
      name := Numbered(desired, counter);
    }
    UniqueNameDetermined(taken, desired, name, UniqueOf(taken, desired));
  }
}
