/**
 * The command-line entry of the folder sorter: `--silent` anywhere in the
 * argument vector turns the summary off and its first occurrence is removed;
 * then one remaining argument sorts the working directory, two sort the
 * folder named by the second, and three or more fail, because the call
 * passes a keyword `exclude` that the sort entry point does not accept.
 */
module Cli {
  import opened Wrappers

  const SilentFlag: string := "--silent"

  /** How the sort entry point is called: `loc` (None: the working directory) and `silent`. */
  datatype Call = Call(loc: Option<string>, silent: bool)

  /** `IndexError` from `sys.argv[1]`, `TypeError` from an unexpected keyword argument. */
  datatype Error = IndexError | UnexpectedKeyword(keyword: string)

  /** `list.remove(x)`: drops the first occurrence of `x`. */
  function RemoveFirst(s: seq<string>, x: string): (r: seq<string>)
    requires x in s
    ensures |r| == |s| - 1
    ensures multiset(r) == multiset(s) - multiset{x}
  {
    assert s == [s[0]] + s[1..];
    if s[0] == x then s[1..] else [s[0]] + RemoveFirst(s[1..], x)
  }

  /**
   * The call made for the positional arguments left after the flag is
   * removed: `sys.argv[1]` is read before the call, so with no second
   * argument it fails with an index error; with a third the call fails on
   * the keyword `exclude`.
   */
  function Invoke(args: seq<string>, silent: bool): (r: Result<Call, Error>)
    ensures r.Success? <==> 1 <= |args| <= 2
    ensures r.Success? ==> r.value.silent == silent
    ensures r.Success? ==> r.value.loc == if |args| == 2 then Some(args[1]) else None
    ensures |args| == 0 ==> r == Failure(IndexError)
    ensures |args| >= 3 ==> r == Failure(UnexpectedKeyword("exclude"))
  {
    if |args| == 1 then Success(Call(None, silent))
    else if |args| == 2 then Success(Call(Some(args[1]), silent))
    else if |args| < 2 then Failure(IndexError)
    else Failure(UnexpectedKeyword("exclude"))
  }

  /**
   * The whole `__main__` block. The flag is reported exactly when present;
   * with `n` arguments left after one flag is removed, `n == 1` sorts the
   * working directory, `n == 2` the folder named by the second, `n == 0`
   * fails with an index error and `n >= 3` on the keyword `exclude`.
   */
  function Dispatch(argv: seq<string>): (d: Result<Call, Error>)
    ensures var args := if SilentFlag in argv then RemoveFirst(argv, SilentFlag) else argv;
      var n := |argv| - (if SilentFlag in argv then 1 else 0);
      |args| == n &&
      (d.Success? ==> d.value.silent == (SilentFlag in argv)) &&
      (n == 1 <==> d == Success(Call(None, SilentFlag in argv))) &&
      (n == 2 <==> d.Success? && d.value.loc.Some?) &&
      (n == 2 ==> d == Success(Call(Some(args[1]), SilentFlag in argv))) &&
      (n == 0 <==> d == Failure(IndexError)) &&
      (n >= 3 <==> d == Failure(UnexpectedKeyword("exclude")))
  {
    var silent := SilentFlag in argv;
    var args := if silent then RemoveFirst(argv, SilentFlag) else argv;
    Invoke(args, silent)
  }

  /** Removing `x` from `a + [x] + b` where `a` has no `x` gives back `a + b`. */
  lemma {:induction false} RemoveFirstOfInserted(a: seq<string>, x: string, b: seq<string>)
    requires x !in a
    ensures RemoveFirst(a + [x] + b, x) == a + b
  {
    var s := a + [x] + b;
    if a == [] {
      assert s == [x] + b;
    } else {
      var tail := a[1..];
      assert x !in tail;
      assert s[0] != x;
      assert s[1..] == tail + [x] + b;
      calc {
        RemoveFirst(s, x);
        [s[0]] + RemoveFirst(s[1..], x);
        { RemoveFirstOfInserted(tail, x, b); }
        [a[0]] + (tail + b);
        { assert a == [a[0]] + tail; }
        a + b;
      }
    }
  }

  /**
   * Where the flag stands does not matter: with `--silent` inserted
   * anywhere, the call is the one made without it, made silent.
   */
  lemma SilentAnywhere(a: seq<string>, b: seq<string>)
    requires SilentFlag !in a + b
    ensures Dispatch(a + [SilentFlag] + b) == Invoke(a + b, true)
    ensures Dispatch(a + b) == Invoke(a + b, false)
  {
    RemoveFirstOfInserted(a, SilentFlag, b);
  }

  /** A repeated flag is removed only once, and what is left becomes the folder to sort. */
  lemma RepeatedFlagBecomesTheFolder()
    ensures Dispatch(["sort_folder_by_categories.py", SilentFlag, SilentFlag]) ==
      Success(Call(Some(SilentFlag), true))
  {
    RemoveFirstOfInserted(["sort_folder_by_categories.py"], SilentFlag, [SilentFlag]);
    assert ["sort_folder_by_categories.py"] + [SilentFlag] + [SilentFlag] ==
      ["sort_folder_by_categories.py", SilentFlag, SilentFlag];
  }
}
