/** The scan of the command line in main that picks the home URL: it starts
    from DEFAULT_URL; "--home" or "-h" followed by an argument sets home to
    that argument and skips it; any other argument containing "://" sets
    home; everything else is ignored, and the last assignment wins. */
module CommandLine {
  import opened CStrings

  /** DEFAULT_URL */
  const DefaultUrl := "https://x.com"

  predicate IsHomeFlag(arg: string) {
    arg == "--home" || arg == "-h"
  }

  /** The values the scan of argv from index `i` on assigns to home_url, in
      the order it assigns them. */
  function Assignments(argv: seq<string>, i: nat): seq<string>
    decreases |argv| - i
  {
    if i >= |argv| then []
    else if IsHomeFlag(argv[i]) then
      if i + 1 < |argv| then [argv[i + 1]] + Assignments(argv, i + 2)
      else Assignments(argv, i + 1)
    else if Contains(argv[i], "://") then [argv[i]] + Assignments(argv, i + 1)
    else Assignments(argv, i + 1)
  }

  /** The last of `values`, or `default` when there is none. */
  function LastOr(default: string, values: seq<string>): string {
    if values == [] then default else values[|values| - 1]
  }

  /** The home URL main ends up with for `argv` (argv[0] is the program name). */
  function Home(argv: seq<string>): string {
    LastOr(DefaultUrl, Assignments(argv, 1))
  }

  /** The loop of main over argv[1..argc-1]. */
  method ScanHome(argv: seq<string>) returns (home: string)
    ensures home == Home(argv)
  {
    home := DefaultUrl;
    var i := 1;
    while i < |argv|
      invariant 1 <= i
      invariant LastOr(home, Assignments(argv, i)) == Home(argv)
      decreases |argv| - i
    {
      if IsHomeFlag(argv[i]) {
        if i + 1 < |argv| {
          home := argv[i + 1];
          i := i + 1;
        }
      } else if Contains(argv[i], "://") {
        home := argv[i];
      }
      i := i + 1;
    }
  }

  /** The scan of argv from `i` ends without a flag left waiting for its
      argument, so arguments appended later are scanned afresh. */
  predicate EndsClean(argv: seq<string>, i: nat)
    decreases |argv| - i
  {
    if i >= |argv| then true
    else if IsHomeFlag(argv[i]) then i + 1 < |argv| && EndsClean(argv, i + 2)
    else EndsClean(argv, i + 1)
  }

  /** Neither flag contains "://". */
  lemma FlagHasNoScheme(arg: string)
    requires IsHomeFlag(arg)
    ensures !Occurs(arg, "://")
  {
    assert ':' !in arg;
    forall i: nat ensures !OccursAt(arg, "://", i) {
      if i + 3 <= |arg| {
        assert arg[i..i + 3][0] == arg[i] && arg[i] in arg;
      }
    }
  }

  /** Every value home can take is an argument that contains "://" or that
      follows a flag. */
  lemma {:induction false} AssignmentsOrigin(argv: seq<string>, i: nat)
    requires i >= 1
    ensures forall v <- Assignments(argv, i) ::
              exists j :: i <= j < |argv| && v == argv[j] &&
                          (Occurs(argv[j], "://") || IsHomeFlag(argv[j - 1]))
    decreases |argv| - i
  {
    if i < |argv| {
      if IsHomeFlag(argv[i]) {
        if i + 1 < |argv| {
          AssignmentsOrigin(argv, i + 2);
        } else {
          AssignmentsOrigin(argv, i + 1);
        }
      } else {
        AssignmentsOrigin(argv, i + 1);
      }
    }
  }

  /** Home is DEFAULT_URL or an argument that names a scheme or follows a flag. */
  lemma HomeOrigin(argv: seq<string>)
    ensures Home(argv) == DefaultUrl ||
            exists j :: 1 <= j < |argv| && Home(argv) == argv[j] &&
                        (Occurs(argv[j], "://") || IsHomeFlag(argv[j - 1]))
  {
    AssignmentsOrigin(argv, 1);
    var values := Assignments(argv, 1);
    if values != [] {
      assert values[|values| - 1] in values;
    }
  }

  /** Scanning a longer command line first goes through the shorter one when
      that scan ends clean. */
  lemma {:induction false} AssignmentsAppend(argv: seq<string>, more: seq<string>, i: nat)
    requires 1 <= i <= |argv| && EndsClean(argv, i)
    ensures Assignments(argv + more, i) == Assignments(argv, i) + Assignments(argv + more, |argv|)
    decreases |argv| - i
  {
    var all := argv + more;
    if i < |argv| {
      assert all[i] == argv[i];
      if IsHomeFlag(argv[i]) {
        assert all[i + 1] == argv[i + 1];
        AssignmentsAppend(argv, more, i + 2);
      } else {
        AssignmentsAppend(argv, more, i + 1);
      }
    }
  }

  /** An argument containing "://" given last becomes home, whatever came
      before it: read either on its own or as the argument of a flag. */
  lemma {:induction false} SchemeArgLastFrom(argv: seq<string>, url: string, i: nat)
    requires 1 <= i <= |argv| && Occurs(url, "://")
    ensures Assignments(argv + [url], i) != []
    ensures LastOr(DefaultUrl, Assignments(argv + [url], i)) == url
    decreases |argv| - i
  {
    var all := argv + [url];
    if i == |argv| {
      if IsHomeFlag(url) {
        FlagHasNoScheme(url);
      }
      assert Assignments(all, i) == [url];
    } else {
      assert all[i] == argv[i];
      if IsHomeFlag(argv[i]) {
        if i + 2 <= |argv| {
          SchemeArgLastFrom(argv, url, i + 2);
        } else {
          assert all[i + 1] == url;
          assert Assignments(all, i) == [url];
        }
      } else {
        SchemeArgLastFrom(argv, url, i + 1);
      }
    }
  }

  /** The last argument containing "://" wins. */
  lemma SchemeArgWins(argv: seq<string>, url: string)
    requires |argv| >= 1 && Occurs(url, "://")
    ensures Home(argv + [url]) == url
  {
    SchemeArgLastFrom(argv, url, 1);
  }

  /** A flag followed by an argument sets home to it, even when it has no "://". */
  lemma FlagArgWins(argv: seq<string>, flag: string, value: string)
    requires |argv| >= 1 && EndsClean(argv, 1) && IsHomeFlag(flag)
    ensures Home(argv + [flag, value]) == value
  {
    AssignmentsAppend(argv, [flag, value], 1);
    var all := argv + [flag, value];
    assert all[|argv|] == flag && all[|argv| + 1] == value;
    assert Assignments(all, |argv|) == [value];
  }

  /** A flag given last, with no argument after it, is ignored. */
  lemma TrailingFlagIgnored(argv: seq<string>, flag: string)
    requires |argv| >= 1 && EndsClean(argv, 1) && IsHomeFlag(flag)
    ensures Home(argv + [flag]) == Home(argv)
  {
    AssignmentsAppend(argv, [flag], 1);
    var all := argv + [flag];
    assert all[|argv|] == flag;
    assert Assignments(all, |argv|) == [];
  }

  /** An argument that is neither a flag nor contains "://" is ignored. */
  lemma OtherArgIgnored(argv: seq<string>, arg: string)
    requires |argv| >= 1 && EndsClean(argv, 1)
    requires !IsHomeFlag(arg) && !Occurs(arg, "://")
    ensures Home(argv + [arg]) == Home(argv)
  {
    AssignmentsAppend(argv, [arg], 1);
    var all := argv + [arg];
    assert all[|argv|] == arg;
    assert Assignments(all, |argv|) == [];
  }
}
