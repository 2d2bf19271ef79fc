/**
 * `load_premium_numbers`: the identifiers of the channels, collected from
 * the `premium<digits>/` paths that occur in a list of playlist files.
 *
 * Opening and reading a file is outside the model: each file arrives as
 * its name and what reading it gave. The console reports of unreadable
 * files are returned as a list of lines.
 */
module Collector {
  import opened Text
  import opened Patterns
  import opened Files

  /** The digit strings `findall` captures in a text, as a set. */
  function IdsIn(text: string): (ids: set<string>)
    ensures forall d | d in ids :: d != [] && AllDigits(d)
  {
    set d | d in FindIds(text)
  }

  /**
   * The set of digit strings that the first loop accumulates: the union of
   * the captures in every file that could be read.
   */
  function FoundIds(files: seq<(string, FileRead)>): (ids: set<string>)
    ensures forall d | d in ids :: d != [] && AllDigits(d)
  {
    if files == [] then {}
    else
      var last := files[|files| - 1].1;
      FoundIds(files[..|files| - 1]) + if last.Contents? then IdsIn(last.text) else {}
  }

  /** The line printed for a file that could not be read, if any. */
  function Report(name: string, read: FileRead): (r: seq<string>)
    ensures read.Contents? <==> r == []
  {
    match read
    case Contents(_) => []
    case NotFound => ["Error: File " + name + " not found."]
    case ReadError(e) => ["Error reading " + name + ": " + e]
  }

  /** The lines printed for all unreadable files, in file order. */
  function Reports(files: seq<(string, FileRead)>): (r: seq<string>)
    ensures |r| <= |files|
  {
    if files == [] then []
    else Reports(files[..|files| - 1]) + Report(files[|files| - 1].0, files[|files| - 1].1)
  }

  /** A digit string is collected exactly when some readable file holds `premium<it>/`. */
  lemma {:induction false} FoundIdsExact(files: seq<(string, FileRead)>, d: string)
    ensures d in FoundIds(files) <==>
            exists k, p | 0 <= k < |files| && files[k].1.Contents? ::
              IsIdMatch(files[k].1.text, p, d)
  {
    if files != [] {
      var n := |files| - 1;
      var init, last := files[..n], files[n].1;
      FoundIdsExact(init, d);
      if last.Contents? && d in FindIds(last.text) {
        FindIdsSound(last.text, d);
      }
      if exists k, p | 0 <= k < |files| && files[k].1.Contents? :: IsIdMatch(files[k].1.text, p, d) {
        var k, p :| 0 <= k < |files| && files[k].1.Contents? && IsIdMatch(files[k].1.text, p, d);
        if k == n {
          FindIdsComplete(last.text, p, d);
        } else {
          assert init[k] == files[k];
        }
      }
      if d in FoundIds(init) {
        var k, p :| 0 <= k < |init| && init[k].1.Contents? && IsIdMatch(init[k].1.text, p, d);
        assert files[k] == init[k];
      }
    }
  }

  /** Every unreadable file, and only those, gets its report line. */
  lemma {:induction false} ReportsExact(files: seq<(string, FileRead)>, m: string)
    ensures m in Reports(files) <==>
            exists k | 0 <= k < |files| :: m in Report(files[k].0, files[k].1)
  {
    if files != [] {
      var n := |files| - 1;
      var init, last := files[..n], Report(files[n].0, files[n].1);
      assert Reports(files) == Reports(init) + last;
      ReportsExact(init, m);
      if m in Reports(init) {
        var k :| 0 <= k < |init| && m in Report(init[k].0, init[k].1);
        assert files[k] == init[k];
      } else if m in last {
        assert m in Report(files[n].0, files[n].1);
      } else {
        forall k | 0 <= k < |files|
          ensures m !in Report(files[k].0, files[k].1)
        {
          if k < n {
            assert files[k] == init[k];
          }
        }
      }
    }
  }

  predicate Sorted(xs: seq<int>) {
    forall i, j | 0 <= i < j < |xs| :: xs[i] <= xs[j]
  }

  /** How many of the collected digit strings denote the integer `v`. */
  function ValueCount(ids: set<string>, v: int): (n: nat)
    ensures n <= |ids|
  {
    var hits := set d | d in ids && AllDigits(d) && DigitsValue(d) == v;
    assert hits <= ids;
    SubsetCard(hits, ids);
    |hits|
  }

  lemma SubsetCard<T>(a: set<T>, b: set<T>)
    requires a <= b
    ensures |a| <= |b|
  {
    assert b == a + (b - a);
  }

  /** Adding one more digit string adds one occurrence of its value. */
  lemma ValueCountAdd(ids: set<string>, d: string, v: int)
    requires d !in ids && AllDigits(d)
    ensures ValueCount(ids + {d}, v) == ValueCount(ids, v) + if DigitsValue(d) == v then 1 else 0
  {
    var hits := set e | e in ids && AllDigits(e) && DigitsValue(e) == v;
    var more := set e | e in ids + {d} && AllDigits(e) && DigitsValue(e) == v;
    if DigitsValue(d) == v {
      assert more == hits + {d};
    } else {
      assert more == hits;
    }
  }

  /** `x` put into a sorted list at the first place where it fits. */
  function Insert(xs: seq<int>, x: int): (r: seq<int>)
    requires Sorted(xs)
    ensures Sorted(r) && multiset(r) == multiset(xs) + multiset{x}
    ensures |r| == |xs| + 1
  {
    if xs == [] || x <= xs[0] then [x] + xs
    else
      var t := Insert(xs[1..], x);
      InsertBehindHead(xs, x, t);
      [xs[0]] + t
  }

  /** The head of a sorted list, in front of the rest with `x` inserted, is `x` inserted into the list. */
  lemma InsertBehindHead(xs: seq<int>, x: int, t: seq<int>)
    requires Sorted(xs) && xs != [] && xs[0] < x
    requires Sorted(t) && multiset(t) == multiset(xs[1..]) + multiset{x}
    ensures Sorted([xs[0]] + t) && multiset([xs[0]] + t) == multiset(xs) + multiset{x}
  {
    assert xs == [xs[0]] + xs[1..];
    forall k | 0 <= k < |t|
      ensures xs[0] <= t[k]
    {
      assert t[k] in multiset(t);
      if t[k] != x {
        assert t[k] in xs[1..];
        var i :| 0 <= i < |xs[1..]| && xs[1..][i] == t[k];
        assert xs[i + 1] == t[k];
      }
    }
  }

  /** Inserting the value of one more digit string keeps the counts in step with the strings. */
  lemma InsertCounts(done: set<string>, d: string, numbers: seq<int>, next: seq<int>)
    requires d !in done && AllDigits(d)
    requires forall v :: multiset(numbers)[v] == ValueCount(done, v)
    requires multiset(next) == multiset(numbers) + multiset{DigitsValue(d)}
    ensures forall v :: multiset(next)[v] == ValueCount(done + {d}, v)
  {
    forall v
      ensures multiset(next)[v] == ValueCount(done + {d}, v)
    {
      ValueCountAdd(done, d, v);
    }
  }

  /**
   * `sorted([int(num) for num in premium_numbers])`: the values of a set
   * of digit strings, in ascending order, one entry per string.
   */
  method SortedValues(found: set<string>) returns (numbers: seq<int>)
    requires forall d | d in found :: AllDigits(d)
    ensures Sorted(numbers)
    ensures forall v :: multiset(numbers)[v] == ValueCount(found, v)
    ensures |numbers| == |found|
  {
    numbers := [];
    var rest := found;
    while rest != {}
      invariant rest <= found
      invariant Sorted(numbers)
      invariant forall v :: multiset(numbers)[v] == ValueCount(found - rest, v)
      invariant |numbers| == |found - rest|
      decreases |rest|
    {
      var d :| d in rest;
      var done := found - rest;
      assert found - (rest - {d}) == done + {d};
      assert d !in done;
      assert |done + {d}| == |done| + 1;
      var next := Insert(numbers, DigitsValue(d));
      InsertCounts(done, d, numbers, next);
      numbers := next;
      rest := rest - {d};
    }
    assert found - rest == found;
  }

  /**
   * `load_premium_numbers(filenames)`: the integer values of the distinct
   * digit strings found, in ascending order, and the lines reporting the
   * files that could not be read. De-duplication is on the strings, so
   * `7` and `007` both appear as 7.
   */
  method LoadPremiumNumbers(files: seq<(string, FileRead)>) returns (numbers: seq<int>, reports: seq<string>)
    ensures Sorted(numbers)
    ensures forall v :: multiset(numbers)[v] == ValueCount(FoundIds(files), v)
    ensures |numbers| == |FoundIds(files)|
    ensures reports == Reports(files)
  {
    var found: set<string> := {};
    reports := [];
    for k := 0 to |files|
      invariant found == FoundIds(files[..k])
      invariant reports == Reports(files[..k])
    {
      assert files[..k + 1][..k] == files[..k];
      var (name, read) := files[k];
      match read
      case Contents(text) =>
        found := found + IdsIn(text);
      case NotFound =>
        reports := reports + ["Error: File " + name + " not found."];
      case ReadError(e) =>
        reports := reports + ["Error reading " + name + ": " + e];
    }
    assert files[..|files|] == files;
    numbers := SortedValues(found);
  }

  /** Nothing collected means an empty list, and only then. */
  lemma NothingFound(files: seq<(string, FileRead)>, numbers: seq<int>)
    requires |numbers| == |FoundIds(files)|
    ensures numbers == [] <==> forall k, p, d | 0 <= k < |files| && files[k].1.Contents? ::
                                 !IsIdMatch(files[k].1.text, p, d)
  {
    if numbers != [] {
      var d :| d in FoundIds(files);
      FoundIdsExact(files, d);
    } else {
      forall k, p, d | 0 <= k < |files| && files[k].1.Contents?
        ensures !IsIdMatch(files[k].1.text, p, d)
      {
        FoundIdsExact(files, d);
      }
    }
  }

  /**
   * Two digit strings with one value, such as `premium7/` in one place and
   * `premium007/` in another, put that value in the list twice.
   */
  lemma LeadingZerosKept(files: seq<(string, FileRead)>, k: nat, p: nat, j: nat, q: nat)
    requires k < |files| && files[k].1.Contents? && IsIdMatch(files[k].1.text, p, "7")
    requires j < |files| && files[j].1.Contents? && IsIdMatch(files[j].1.text, q, "007")
    ensures ValueCount(FoundIds(files), 7) >= 2
  {
    FoundIdsExact(files, "7");
    FoundIdsExact(files, "007");
    var hits := set e | e in FoundIds(files) && AllDigits(e) && DigitsValue(e) == 7;
    assert "007"[..2] == "00" && "00"[..1] == "0" && "0"[..0] == [] && "7"[..0] == [];
    assert DigitsValue("007") == 7 && DigitsValue("7") == 7;
    assert {"7", "007"} <= hits;
    SubsetCard({"7", "007"}, hits);
  }
}
