/** The public-link rules of the share screen: the default name offered for a new public
    link, whether several public links may exist, the add-link button and the public-link
    section. A public link is represented by its name alone (`None` when the server sent
    none); the rest of a share record plays no part in these rules.
 */
module PublicLinks {
  import opened Outcomes

  const INT32_MAX: int := 0x7fff_ffff
  const INT32_MIN: int := -0x8000_0000

  type Link = Option<string>

  // ---------------------------------------------------------------------------------
  // Decimal digits

  predicate IsDigit(c: char) {
    '0' <= c <= '9'
  }

  predicate AllDigits(ds: string) {
    forall i :: 0 <= i < |ds| ==> IsDigit(ds[i])
  }

  /** Integer.parseInt on a run of ASCII digits, before the range check: leading zeros
      are allowed and any length is accepted. */
  function DigitsValue(ds: string): nat
    requires AllDigits(ds)
  {
    if ds == [] then 0
    else DigitsValue(ds[..|ds| - 1]) * 10 + (ds[|ds| - 1] as int - '0' as int)
  }

  function DigitChar(d: nat): (c: char)
    requires d < 10
    ensures IsDigit(c) && c as int - '0' as int == d
  {
    ('0' as int + d) as char
  }

  /** The decimal digits of a non-negative number, without leading zeros. */
  function Decimal(n: nat): (ds: string)
    ensures 0 < |ds| && AllDigits(ds)
    ensures DigitsValue(ds) == n
    ensures |ds| > 1 ==> ds[0] != '0'
    decreases n
  {
    if n < 10 then [DigitChar(n)]
    else
      var ds := Decimal(n / 10) + [DigitChar(n % 10)];
      assert ds[..|ds| - 1] == Decimal(n / 10);
      ds
  }

  /** "%d": a minus sign before the digits of a negative number. */
  function FormatInt(n: int): (s: string)
    ensures n >= 0 ==> s == Decimal(n)
    ensures n < 0 ==> s == "-" + Decimal(-n)
  {
    if n < 0 then "-" + Decimal(-n) else Decimal(n)
  }

  /** The suffix " (%1$d)" appended to the default name. */
  function NumberSuffix(n: int): string {
    " (" + FormatInt(n) + ")"
  }

  // ---------------------------------------------------------------------------------
  // Matching a numbered default name

  /** The shape the pattern checks, position by position. */
  predicate LooksNumbered(defaultName: string, name: string) {
    var d := |defaultName|;
    && |name| >= d + 4 && name[..d] == defaultName && name[d] == ' ' && name[d + 1] == '('
    && name[|name| - 1] == ')' && AllDigits(name[d + 2..|name| - 1])
  }

  /** The digits captured by `\Q<defaultName>\E \((\d+)\)\z` when the whole name matches. */
  function NumberedSuffix(defaultName: string, name: string): (ds: Option<string>)
    ensures ds.Some? <==> exists digits :: 0 < |digits| && AllDigits(digits) && name == defaultName + " (" + digits + ")"
    ensures ds.Some? ==> 0 < |ds.value| && AllDigits(ds.value) && name == defaultName + " (" + ds.value + ")"
  {
    if LooksNumbered(defaultName, name) then
      var digits := name[|defaultName| + 2..|name| - 1];
      assert name == defaultName + " (" + digits + ")";
      Some(digits)
    else
      NotNumbered(defaultName, name);
      None
  }

  lemma NotNumbered(defaultName: string, name: string)
    requires !LooksNumbered(defaultName, name)
    ensures forall digits :: 0 < |digits| && AllDigits(digits) ==> name != defaultName + " (" + digits + ")"
  {
    forall digits | 0 < |digits| && AllDigits(digits)
      ensures name != defaultName + " (" + digits + ")"
    {
      NumberedNameParts(defaultName, digits);
    }
  }

  /** The pieces of a numbered name sit at the positions the matcher looks at. */
  lemma NumberedNameParts(defaultName: string, digits: string)
    requires 0 < |digits| && AllDigits(digits)
    ensures var name := defaultName + " (" + digits + ")";
      var d := |defaultName|;
      && |name| >= d + 4 && name[..d] == defaultName && name[d] == ' ' && name[d + 1] == '('
      && name[|name| - 1] == ')' && name[d + 2..|name| - 1] == digits
  {
  }

  /** The number a link's name puts into the used list: a name other than the default
      name itself that matches the numbered pattern, read as a number. */
  function CapturedNumber(defaultName: string, link: Link): Option<nat> {
    if link.Some? && link.value != defaultName && NumberedSuffix(defaultName, link.value).Some?
    then Some(DigitsValue(NumberedSuffix(defaultName, link.value).value))
    else None
  }

  /** A link that stops the scan: no name (the `!!` on the match result throws), or a
      captured number outside the int range (parseInt throws, the name becomes ""). */
  predicate Blocks(defaultName: string, link: Link) {
    link.None? || (CapturedNumber(defaultName, link).Some? && CapturedNumber(defaultName, link).value > INT32_MAX)
  }

  datatype Scan = NullName | Unparsable | Scanned(defaultTaken: bool, used: seq<int>)

  /** The loop over the public links, in list order. */
  function ScanLinks(defaultName: string, links: seq<Link>): (r: Scan)
    ensures r.Scanned? <==> forall i :: 0 <= i < |links| ==> !Blocks(defaultName, links[i])
    ensures r.Scanned? ==> (r.defaultTaken <==> Some(defaultName) in links)
    ensures r.Scanned? ==> forall x :: x in r.used <==>
      exists i :: 0 <= i < |links| && CapturedNumber(defaultName, links[i]) == Some(x)
    ensures r.Scanned? ==> forall x :: x in r.used ==> 0 <= x <= INT32_MAX
    ensures !r.Scanned? ==>
      exists i :: (0 <= i < |links| && FirstBlock(defaultName, links, i) && (r.NullName? <==> links[i].None?))
  {
    if links == [] then Scanned(false, [])
    else
      var link := links[0];
      var rest := ScanLinks(defaultName, links[1..]);
      assert links == [link] + links[1..];
      if link.None? then
        assert FirstBlock(defaultName, links, 0);
        NullName
      else if Blocks(defaultName, link) then
        assert FirstBlock(defaultName, links, 0);
        Unparsable
      else
        match rest
        case Scanned(taken, used) =>
          var n := CapturedNumber(defaultName, link);
          ScanStep(defaultName, links, used);
          Scanned(taken || link == Some(defaultName), if n.Some? then [n.value] + used else used)
        case _ =>
          FirstBlockShifts(defaultName, links);
          rest
  }

  /** Link `i` is the first that stops the scan. */
  predicate FirstBlock(defaultName: string, links: seq<Link>, i: int) {
    0 <= i < |links| && Blocks(defaultName, links[i]) && forall j :: 0 <= j < i ==> !Blocks(defaultName, links[j])
  }

  lemma FirstBlockShifts(defaultName: string, links: seq<Link>)
    requires 0 < |links| && !Blocks(defaultName, links[0])
    ensures forall i :: FirstBlock(defaultName, links[1..], i) ==> FirstBlock(defaultName, links, i + 1)
  {
    forall i | FirstBlock(defaultName, links[1..], i)
      ensures FirstBlock(defaultName, links, i + 1)
    {
      forall j | 0 <= j < i + 1
        ensures !Blocks(defaultName, links[j])
      {
        if j > 0 {
          assert links[j] == links[1..][j - 1];
        }
      }
    }
  }

  lemma ScanStep(defaultName: string, links: seq<Link>, used: seq<int>)
    requires 0 < |links|
    requires forall x :: x in used <==>
      exists i :: 0 <= i < |links[1..]| && CapturedNumber(defaultName, links[1..][i]) == Some(x)
    ensures var n := CapturedNumber(defaultName, links[0]);
      forall x :: x in (if n.Some? then [n.value] + used else used) <==>
        exists i :: 0 <= i < |links| && CapturedNumber(defaultName, links[i]) == Some(x)
  {
    var n := CapturedNumber(defaultName, links[0]);
    forall x | exists i :: 0 <= i < |links| && CapturedNumber(defaultName, links[i]) == Some(x)
      ensures x in (if n.Some? then [n.value] + used else used)
    {
      var i :| 0 <= i < |links| && CapturedNumber(defaultName, links[i]) == Some(x);
      if i > 0 {
        assert links[1..][i - 1] == links[i];
      }
    }
    forall x | x in used
      ensures exists i :: 0 <= i < |links| && CapturedNumber(defaultName, links[i]) == Some(x)
    {
      var i :| 0 <= i < |links[1..]| && CapturedNumber(defaultName, links[1..][i]) == Some(x);
      assert links[i + 1] == links[1..][i];
    }
  }

  // ---------------------------------------------------------------------------------
  // Sorting the used numbers

  predicate Sorted(s: seq<int>) {
    forall i, j :: 0 <= i < j < |s| ==> s[i] <= s[j]
  }

  function InsertSorted(x: int, s: seq<int>): (r: seq<int>)
    requires Sorted(s)
    ensures Sorted(r) && multiset(r) == multiset(s) + multiset{x}
  {
    if s == [] || x <= s[0] then
      SortedCons(x, s);
      [x] + s
    else
      var rest := InsertSorted(x, s[1..]);
      assert s == [s[0]] + s[1..];
      ElementsOfMultiset(rest, multiset(s[1..]) + multiset{x}, s[0]);
      SortedCons(s[0], rest);
      [s[0]] + rest
  }

  lemma SortedCons(x: int, s: seq<int>)
    requires Sorted(s) && forall i :: 0 <= i < |s| ==> x <= s[i]
    ensures Sorted([x] + s)
  {
    var r := [x] + s;
    forall i, j | 0 <= i < j < |r|
      ensures r[i] <= r[j]
    {
      if i > 0 {
        assert r[i] == s[i - 1];
      }
      assert r[j] == s[j - 1];
    }
  }

  lemma ElementsOfMultiset(s: seq<int>, m: multiset<int>, lo: int)
    requires multiset(s) == m && forall y :: y in m ==> lo <= y
    ensures forall i :: 0 <= i < |s| ==> lo <= s[i]
  {
    forall i | 0 <= i < |s|
      ensures lo <= s[i]
    {
      assert s[i] in multiset(s);
    }
  }

  /** Collections.sort on the used numbers: ascending, the same numbers with the same
      multiplicities. */
  function Sort(xs: seq<int>): (r: seq<int>)
    ensures Sorted(r) && multiset(r) == multiset(xs)
    ensures forall x :: x in r <==> x in xs
  {
    if xs == [] then []
    else
      assert xs == [xs[0]] + xs[1..];
      var r := InsertSorted(xs[0], Sort(xs[1..]));
      SameMultisetSameMembers(r, xs);
      r
  }

  lemma SameMultisetSameMembers(a: seq<int>, b: seq<int>)
    requires multiset(a) == multiset(b)
    ensures forall x :: x in a <==> x in b
  {
    forall x
      ensures x in a <==> x in b
    {
      assert x in multiset(a) <==> x in multiset(b);
    }
  }

  // ---------------------------------------------------------------------------------
  // Choosing the number

  /** 32-bit `x + 1`: Int.MAX_VALUE wraps round to Int.MIN_VALUE. */
  function Int32Succ(x: int): (y: int)
    requires INT32_MIN <= x <= INT32_MAX
    ensures INT32_MIN <= y <= INT32_MAX
    ensures x < INT32_MAX ==> y == x + 1
    ensures x == INT32_MAX ==> y == INT32_MIN
  {
    if x == INT32_MAX then INT32_MIN else x + 1
  }

  /** The gap search from position `i` of the sorted numbers: the first `current + 1`
      whose successor in the list is more than one above, or -1 when there is none. */
  function GapFrom(s: seq<int>, i: nat): (c: int)
    decreases |s| - i
  {
    if i + 1 >= |s| then -1
    else if s[i + 1] - s[i] > 1 then s[i] + 1
    else GapFrom(s, i + 1)
  }

  /** The number the getter picks from the sorted used numbers. */
  function ChosenNumber(s: seq<int>): (n: int)
    requires forall x :: x in s ==> 0 <= x <= INT32_MAX
  {
    if |s| == 0 || s[0] != 2 then 2
    else
      var c := GapFrom(s, 0);
      var last := s[|s| - 1];
      assert last in s;
      if c < 0 then Int32Succ(last) else c
  }

  /** An upper bound of the numbers: everything in `xs` is below it. */
  function Above(xs: seq<int>): (b: int)
    ensures forall i :: 0 <= i < |xs| ==> xs[i] < b
  {
    if xs == [] then 0
    else
      var b := Above(xs[1..]);
      assert forall i :: 1 <= i < |xs| ==> xs[i] == xs[1..][i - 1];
      if xs[0] + 1 > b then xs[0] + 1 else b
  }

  /** The least number at or above `from` that `used` does not hold. */
  function LowestUnused(used: seq<int>, from: int): (n: int)
    ensures from <= n && n !in used
    ensures forall k :: from <= k < n ==> k in used
    decreases Above(used) - from
  {
    if from in used then LowestUnused(used, from + 1) else from
  }

  /** The least unused number is the only one that is unused with everything below it
      (down to `from`) used. */
  lemma LowestUnusedUnique(used: seq<int>, from: int, n: int)
    requires from <= n && n !in used
    requires forall k :: from <= k < n ==> k in used
    ensures LowestUnused(used, from) == n
  {
    var m := LowestUnused(used, from);
    assert m < n ==> m in used;
    assert n < m ==> n in used;
  }

  lemma LowestUnusedSameMembers(a: seq<int>, b: seq<int>, from: int)
    requires forall x :: x in a <==> x in b
    ensures LowestUnused(a, from) == LowestUnused(b, from)
  {
    LowestUnusedUnique(b, from, LowestUnused(a, from));
  }

  /** The loop's invariant: in a sorted list whose numbers are all at least 2, if every
      number from 2 up to position `i` is present, the gap search from `i` finds the
      lowest unused number, or reports none when that number is one past the last. */
  lemma {:induction false} GapFromFindsLowest(s: seq<int>, i: nat)
    requires Sorted(s) && i < |s|
    requires forall j :: 0 <= j < |s| ==> 2 <= s[j]
    requires forall k :: 2 <= k <= s[i] ==> k in s
    ensures GapFrom(s, i) >= 0 ==> GapFrom(s, i) == LowestUnused(s, 2)
    ensures GapFrom(s, i) < 0 ==> LowestUnused(s, 2) == s[|s| - 1] + 1
    ensures GapFrom(s, i) >= 0 ==> GapFrom(s, i) < s[|s| - 1]
    decreases |s| - i
  {
    if i + 1 >= |s| {
      var n := s[|s| - 1] + 1;
      assert n !in s by {
        forall j | 0 <= j < |s|
          ensures s[j] != n
        {
          assert s[j] <= s[|s| - 1];
        }
      }
      LowestUnusedUnique(s, 2, n);
    } else if s[i + 1] - s[i] > 1 {
      var n := s[i] + 1;
      assert s[i + 1] <= s[|s| - 1];
      assert n !in s by {
        forall j | 0 <= j < |s|
          ensures s[j] != n
        {
          if j <= i {
            assert s[j] <= s[i];
          } else {
            assert s[i + 1] <= s[j];
          }
        }
      }
      LowestUnusedUnique(s, 2, n);
    } else {
      assert s[i] <= s[i + 1];
      GapFromFindsLowest(s, i + 1);
    }
  }

  /** A sorted list of numbers from 2 on that does not start with 2 does not hold 2. */
  lemma NoTwoUnlessFirst(s: seq<int>)
    requires Sorted(s) && forall j :: 0 <= j < |s| ==> 2 <= s[j]
    requires |s| == 0 || s[0] != 2
    ensures 2 !in s
  {
    forall j | 0 <= j < |s|
      ensures s[j] != 2
    {
      assert s[0] <= s[j];
    }
  }

  /** On sorted numbers from 2 to Int.MAX_VALUE the getter's choice is the lowest unused
      number from 2, except that one past Int.MAX_VALUE wraps round to Int.MIN_VALUE. */
  lemma ChosenIsLowestUnusedSorted(s: seq<int>)
    requires Sorted(s) && forall x :: x in s ==> 2 <= x <= INT32_MAX
    ensures var n := LowestUnused(s, 2);
      ChosenNumber(s) == (if n <= INT32_MAX then n else INT32_MIN)
  {
    assert forall j :: 0 <= j < |s| ==> s[j] in s;
    if |s| == 0 || s[0] != 2 {
      NoTwoUnlessFirst(s);
      LowestUnusedUnique(s, 2, 2);
    } else {
      assert s[0] in s;
      GapFromFindsLowest(s, 0);
      var last := s[|s| - 1];
      assert last in s;
    }
  }

  /** The same for the numbers in the order the scan collected them. */
  lemma ChosenIsLowestUnused(used: seq<int>)
    requires forall x :: x in used ==> 2 <= x <= INT32_MAX
    ensures var n := LowestUnused(used, 2);
      ChosenNumber(Sort(used)) == (if n <= INT32_MAX then n else INT32_MIN)
  {
    ChosenIsLowestUnusedSorted(Sort(used));
    LowestUnusedSameMembers(Sort(used), used, 2);
  }

  // ---------------------------------------------------------------------------------
  // The default name

  /** availableDefaultPublicName. `links` is `None` while the public links have not been
      loaded; `defaultName` is the name template filled with the file name. A link with
      no name crashes the getter. */
  function DefaultPublicName(links: Option<seq<Link>>, defaultName: string): (r: Result<string>)
    ensures links.None? ==> r == Ok("")
    ensures r.Err? <==> links.Some? && ScanLinks(defaultName, links.value).NullName?
    ensures r.Err? ==> r.failure == NullDereference
    ensures links.Some? && ScanLinks(defaultName, links.value).Unparsable? ==> r == Ok("")
    ensures links.Some? && ScanLinks(defaultName, links.value).Scanned? && Some(defaultName) !in links.value ==>
      r == Ok(defaultName)
  {
    if links.None? then Ok("")
    else
      match ScanLinks(defaultName, links.value)
      case NullName => Err(NullDereference)
      case Unparsable => Ok("")
      case Scanned(taken, used) =>
        if !taken then Ok(defaultName)
        else Ok(defaultName + NumberSuffix(ChosenNumber(Sort(used))))
  }

  /** When the default name is taken and 2 is not the smallest captured number (or none
      was captured), the getter offers "<default name> (2)". */
  lemma TakenWithoutTwoOffersTwo(links: seq<Link>, defaultName: string)
    requires ScanLinks(defaultName, links).Scanned? && Some(defaultName) in links
    requires var s := Sort(ScanLinks(defaultName, links).used); |s| == 0 || s[0] != 2
    ensures DefaultPublicName(Some(links), defaultName) == Ok(defaultName + " (2)")
  {
    SuffixOfTwo();
  }

  lemma SuffixOfTwo()
    ensures NumberSuffix(2) == " (2)"
  {
    assert Decimal(2) == "2";
  }

  /** When every captured number is at least 2, the getter offers the lowest unused
      number from 2 (wrapped round past Int.MAX_VALUE, which takes over two billion
      links), and then the offered name is no existing link's name. */
  lemma NameIsLowestUnused(links: seq<Link>, defaultName: string)
    requires ScanLinks(defaultName, links).Scanned? && Some(defaultName) in links
    requires forall i :: 0 <= i < |links| && CapturedNumber(defaultName, links[i]).Some? ==>
      CapturedNumber(defaultName, links[i]).value >= 2
    ensures var used := ScanLinks(defaultName, links).used;
      var n := LowestUnused(used, 2);
      DefaultPublicName(Some(links), defaultName) ==
        Ok(defaultName + NumberSuffix(if n <= INT32_MAX then n else INT32_MIN))
    ensures LowestUnused(ScanLinks(defaultName, links).used, 2) <= INT32_MAX ==>
      Some(DefaultPublicName(Some(links), defaultName).value) !in links
  {
    var used := ScanLinks(defaultName, links).used;
    ChosenIsLowestUnused(used);
    NumberedNameIsCaptured(links, defaultName, LowestUnused(used, 2));
  }

  /** A numbered name present among the links had its number collected by the scan. */
  lemma NumberedNameIsCaptured(links: seq<Link>, defaultName: string, n: nat)
    requires ScanLinks(defaultName, links).Scanned?
    ensures Some(defaultName + NumberSuffix(n)) in links ==> n in ScanLinks(defaultName, links).used
  {
    var name := defaultName + NumberSuffix(n);
    if Some(name) in links {
      var i :| 0 <= i < |links| && links[i] == Some(name);
      NumberedNameCarries(defaultName, n);
    }
  }

  /** The name offered for number `n` carries `n`. */
  lemma NumberedNameCarries(defaultName: string, n: nat)
    ensures CapturedNumber(defaultName, Some(defaultName + NumberSuffix(n))) == Some(n)
  {
    var ds := Decimal(n);
    assert defaultName + NumberSuffix(n) == defaultName + " (" + ds + ")";
    CapturedOfNumbered(defaultName, ds);
  }

  /** The number a numbered name carries is read back from its digits. */
  lemma CapturedOfNumbered(defaultName: string, ds: string)
    requires 0 < |ds| && AllDigits(ds)
    ensures NumberedSuffix(defaultName, defaultName + " (" + ds + ")") == Some(ds)
    ensures CapturedNumber(defaultName, Some(defaultName + " (" + ds + ")")) == Some(DigitsValue(ds))
  {
    NumberedNameParts(defaultName, ds);
    assert LooksNumbered(defaultName, defaultName + " (" + ds + ")");
    assert |defaultName + " (" + ds + ")"| != |defaultName|;
  }

  /** One step of the scan over a link that does not stop it. */
  lemma ScanCons(defaultName: string, link: Link, rest: seq<Link>)
    requires !Blocks(defaultName, link) && ScanLinks(defaultName, rest).Scanned?
    ensures var r := ScanLinks(defaultName, rest);
      var n := CapturedNumber(defaultName, link);
      ScanLinks(defaultName, [link] + rest) ==
        Scanned(r.defaultTaken || link == Some(defaultName), if n.Some? then [n.value] + r.used else r.used)
  {
    assert ([link] + rest)[1..] == rest;
  }

  /** Captured numbers 0 and 1 are sorted in front of 2, so the test "smallest number is
      2" fails and the getter offers "(2)" although a link already has that name. */
  lemma AsWrittenRepeatsExistingName(defaultName: string)
    ensures var links := [Some(defaultName), Some(defaultName + " (1)"), Some(defaultName + " (2)")];
      && DefaultPublicName(Some(links), defaultName) == Ok(defaultName + " (2)")
      && Some(defaultName + " (2)") in links
  {
    var links := [Some(defaultName), Some(defaultName + " (1)"), Some(defaultName + " (2)")];
    ExampleScan(defaultName);
    SortOneTwo();
    TakenWithoutTwoOffersTwo(links, defaultName);
  }

  lemma SortOneTwo()
    ensures Sort([1, 2]) == [1, 2]
  {
    assert [1, 2][1..] == [2];
    assert [2][1..] == [];
  }

  /** The scan of "<name>", "<name> (1)", "<name> (2)". */
  lemma ExampleScan(defaultName: string)
    ensures ScanLinks(defaultName, [Some(defaultName), Some(defaultName + " (1)"), Some(defaultName + " (2)")])
      == Scanned(true, [1, 2])
  {
    var one, two := Some(defaultName + " (1)"), Some(defaultName + " (2)");
    ExampleScanTail(defaultName);
    assert CapturedNumber(defaultName, Some(defaultName)) == None;
    ScanCons(defaultName, Some(defaultName), [one, two]);
    assert [Some(defaultName)] + [one, two] == [Some(defaultName), one, two];
  }

  lemma ExampleScanTail(defaultName: string)
    ensures ScanLinks(defaultName, [Some(defaultName + " (1)"), Some(defaultName + " (2)")]) == Scanned(false, [1, 2])
  {
    var one, two := Some(defaultName + " (1)"), Some(defaultName + " (2)");
    ExampleScanLast(defaultName);
    ExampleCaptures(defaultName);
    ScanPrepend(defaultName, one, 1, [two]);
    assert [one] + [two] == [one, two] && [1] + [2] == [1, 2];
  }

  lemma ExampleScanLast(defaultName: string)
    ensures ScanLinks(defaultName, [Some(defaultName + " (2)")]) == Scanned(false, [2])
  {
    ExampleCaptures(defaultName);
    ScanSingle(defaultName, Some(defaultName + " (2)"), 2);
  }

  /** Scanning a numbered link in front of others adds its number in front. */
  lemma ScanPrepend(defaultName: string, link: Link, n: nat, rest: seq<Link>)
    requires link.Some? && link != Some(defaultName)
    requires CapturedNumber(defaultName, link) == Some(n) && n <= INT32_MAX
    requires ScanLinks(defaultName, rest).Scanned?
    ensures var r := ScanLinks(defaultName, rest);
      ScanLinks(defaultName, [link] + rest) == Scanned(r.defaultTaken, [n] + r.used)
  {
    ScanCons(defaultName, link, rest);
  }

  /** The scan of one named link that is not the default name and carries number `n`. */
  lemma ScanSingle(defaultName: string, link: Link, n: nat)
    requires link.Some? && link != Some(defaultName)
    requires CapturedNumber(defaultName, link) == Some(n) && n <= INT32_MAX
    ensures ScanLinks(defaultName, [link]) == Scanned(false, [n])
  {
    assert [link][1..] == [];
  }

  /** "<name> (1)" and "<name> (2)" carry 1 and 2. */
  lemma ExampleCaptures(defaultName: string)
    ensures CapturedNumber(defaultName, Some(defaultName + " (1)")) == Some(1)
    ensures CapturedNumber(defaultName, Some(defaultName + " (2)")) == Some(2)
    ensures defaultName + " (1)" != defaultName && defaultName + " (2)" != defaultName
  {
    assert defaultName + " (1)" == defaultName + " (" + "1" + ")";
    assert defaultName + " (2)" == defaultName + " (" + "2" + ")";
    CapturedOfNumbered(defaultName, "1");
    CapturedOfNumbered(defaultName, "2");
    assert DigitsValue("1") == 1 && DigitsValue("2") == 2;
    assert |defaultName + " (1)"| != |defaultName| && |defaultName + " (2)"| != |defaultName|;
  }

  /** The name the getter evidently means to offer: the lowest number from 2 that no
      link carries, whatever numbers below 2 are present. */
  function CorrectedDefaultPublicName(links: Option<seq<Link>>, defaultName: string): (r: Result<string>)
    ensures links.None? ==> r == Ok("")
    ensures r.Err? <==> links.Some? && ScanLinks(defaultName, links.value).NullName?
    ensures links.Some? && ScanLinks(defaultName, links.value).Scanned? ==>
      r.Ok? && Some(r.value) !in links.value
  {
    if links.None? then Ok("")
    else
      match ScanLinks(defaultName, links.value)
      case NullName => Err(NullDereference)
      case Unparsable => Ok("")
      case Scanned(taken, used) =>
        if !taken then Ok(defaultName)
        else
          NumberedNameIsCaptured(links.value, defaultName, LowestUnused(used, 2));
          Ok(defaultName + NumberSuffix(LowestUnused(used, 2)))
  }

  /** The corrected name agrees with the getter whenever no captured number is below 2
      and the lowest unused number fits in an int. */
  lemma CorrectedAgreesAboveOne(links: seq<Link>, defaultName: string)
    requires ScanLinks(defaultName, links).Scanned?
    requires forall i :: 0 <= i < |links| && CapturedNumber(defaultName, links[i]).Some? ==>
      CapturedNumber(defaultName, links[i]).value >= 2
    requires LowestUnused(ScanLinks(defaultName, links).used, 2) <= INT32_MAX
    ensures CorrectedDefaultPublicName(Some(links), defaultName) == DefaultPublicName(Some(links), defaultName)
  {
    if Some(defaultName) in links {
      NameIsLowestUnused(links, defaultName);
    }
  }

  // ---------------------------------------------------------------------------------
  // Capabilities and the add-link button

  /** A capability flag as the server reports it. */
  datatype CapabilityBoolean = CapFalse | CapTrue | CapUnknown

  /** The capability fields these rules read. */
  datatype Capability = Capability(
    versionString: Option<string>,
    publicEnabled: CapabilityBoolean,
    publicMultiple: CapabilityBoolean)

  datatype Visibility = Visible | Invisible | Gone

  /** enableMultiplePublicSharing. `supportsMultiple` stands for the server-version check
      made on the version string; a missing version string crashes. */
  function EnableMultiplePublicSharing(caps: Option<Capability>, supportsMultiple: string -> bool): (r: Result<bool>)
    ensures r.Err? <==> caps.Some? && caps.value.versionString.None?
    ensures r.Err? ==> r.failure == NullDereference
    ensures r == Ok(false) <==>
      (caps.Some? && caps.value.versionString.Some? &&
       (!supportsMultiple(caps.value.versionString.value) || caps.value.publicMultiple == CapFalse))
  {
    if caps.None? then Ok(true)
    else if caps.value.versionString.None? then Err(NullDereference)
    else if !supportsMultiple(caps.value.versionString.value) then Ok(false)
    else if caps.value.publicMultiple == CapFalse then Ok(false)
    else Ok(true)
  }

  /** isPublicShareDisabled. */
  function IsPublicShareDisabled(caps: Option<Capability>): (r: bool)
    ensures r <==> caps.Some? && caps.value.publicEnabled == CapFalse
  {
    caps.Some? && caps.value.publicEnabled == CapFalse
  }

  /** The public-link section after the capabilities are updated. */
  function PublicLinkSection(caps: Option<Capability>): (v: Visibility)
    ensures v == Gone <==> caps.Some? && caps.value.publicEnabled == CapFalse
    ensures v != Invisible
  {
    if IsPublicShareDisabled(caps) then Gone else Visible
  }

  /** updatePublicLinkButton: `current` is the button's visibility before the call. */
  function UpdatePublicLinkButton(caps: Option<Capability>, links: Option<seq<Link>>,
                                  supportsMultiple: string -> bool, current: Visibility): (r: Result<Visibility>)
    ensures caps.None? || links.None? ==> r == Ok(current)
    ensures r.Err? <==> caps.Some? && links.Some? && caps.value.versionString.None?
    ensures r.Ok? && r.value != current ==> caps.Some? && links.Some?
    ensures caps.Some? && links.Some? && EnableMultiplePublicSharing(caps, supportsMultiple) == Ok(true) ==>
      r == Ok(current)
    ensures caps.Some? && links.Some? && EnableMultiplePublicSharing(caps, supportsMultiple) == Ok(false) ==>
      r.Ok? && (r.value == Visible <==> |links.value| == 0) && (r.value == Invisible <==> |links.value| > 0)
  {
    if caps.None? || links.None? then Ok(current)
    else
      match EnableMultiplePublicSharing(caps, supportsMultiple)
      case Err(e) => Err(e)
      case Ok(multiple) =>
        if multiple then Ok(current)
        else if |links.value| == 0 then Ok(Visible)
        else Ok(Invisible)
  }

  /** With a single public link allowed, once one exists the button never offers another. */
  lemma SingleLinkCannotBeAddedTwice(caps: Option<Capability>, links: seq<Link>,
                                     supportsMultiple: string -> bool, current: Visibility)
    requires caps.Some? && caps.value.versionString.Some?
    requires !supportsMultiple(caps.value.versionString.value) || caps.value.publicMultiple == CapFalse
    requires 0 < |links|
    ensures UpdatePublicLinkButton(caps, Some(links), supportsMultiple, current) == Ok(Invisible)
  {
  }

  // The three add-button scenarios and the disabled-sharing scenario of the share
  // screen's tests, with one existing link and the button laid out visible.

  lemma MultipleSharingKeepsButton(supportsMultiple: string -> bool, enabled: CapabilityBoolean, link: Link)
    requires supportsMultiple("10.1.1")
    ensures UpdatePublicLinkButton(Some(Capability(Some("10.1.1"), enabled, CapTrue)), Some([link]),
      supportsMultiple, Visible) == Ok(Visible)
  {
  }

  lemma MultipleSharingOffHidesButton(supportsMultiple: string -> bool, enabled: CapabilityBoolean, link: Link)
    requires supportsMultiple("10.1.1")
    ensures UpdatePublicLinkButton(Some(Capability(Some("10.1.1"), enabled, CapFalse)), Some([link]),
      supportsMultiple, Visible) == Ok(Invisible)
  {
  }

  lemma OldServerHidesButton(supportsMultiple: string -> bool, enabled: CapabilityBoolean,
                             multiple: CapabilityBoolean, link: Link)
    requires !supportsMultiple("9.3.1")
    ensures UpdatePublicLinkButton(Some(Capability(Some("9.3.1"), enabled, multiple)), Some([link]),
      supportsMultiple, Visible) == Ok(Invisible)
  {
  }

  lemma DisabledSharingHidesSection(version: Option<string>, multiple: CapabilityBoolean)
    ensures PublicLinkSection(Some(Capability(version, CapFalse, multiple))) == Gone
    ensures PublicLinkSection(Some(Capability(version, CapTrue, multiple))) == Visible
  {
  }
}
