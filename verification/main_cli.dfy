/**
 * main.go: how the command line becomes a command and its options. The first
 * argument is the command (`help` when there is none); every later argument
 * that splits on `=` into exactly two pieces sets an option, a later one
 * replacing an earlier one with the same key, and every other argument is
 * ignored.
 */
module MainCli {
  import opened Text

  /** The two pieces of an argument, when it is a `key=value` pair. */
  predicate IsPair(arg: string)
  {
    |Split(arg, '=')| == 2
  }

  /** Whether the argument is a pair with key `k`. */
  predicate Defines(arg: string, k: string)
  {
    IsPair(arg) && Split(arg, '=')[0] == k
  }

  /** The options the arguments set, taken in order. */
  function Options(args: seq<string>): map<string, string>
  {
    if args == [] then map[]
    else
      var before := Options(args[..|args| - 1]);
      var parts := Split(args[|args| - 1], '=');
      if |parts| != 2 then before else before[parts[0] := parts[1]]
  }

  lemma OptionsSnoc(args: seq<string>, i: nat)
    requires i < |args|
    ensures Options(args[..i + 1]) ==
      if IsPair(args[i]) then Options(args[..i])[Split(args[i], '=')[0] := Split(args[i], '=')[1]]
      else Options(args[..i])
  {
    assert args[..i + 1][..i] == args[..i];
  }

  /** `getCommandArgs`: the command and the option map. */
  method GetCommandArgs(args: seq<string>) returns (command: string, options: map<string, string>)
    ensures args == [] ==> command == "help" && options == map[]
    ensures args != [] ==> command == args[0] && options == Options(args[1..])
  {
    var all := if args == [] then ["help"] else args;
    command := all[0];
    var rest := all[1..];
    options := map[];
    var i := 0;
    while i < |rest|
      invariant 0 <= i <= |rest|
      invariant options == Options(rest[..i])
    {
      OptionsSnoc(rest, i);
      var parts := Split(rest[i], '=');
      if |parts| == 2 {
        options := options[parts[0] := parts[1]];
      }
      i := i + 1;
    }
    assert rest[..i] == rest;
  }

  /** No key and no value holds an `=`. */
  lemma {:induction false} OptionsFreeOfEquals(args: seq<string>)
    ensures forall k :: k in Options(args) ==> '=' !in k && '=' !in Options(args)[k]
  {
    if args != [] {
      OptionsFreeOfEquals(args[..|args| - 1]);
    }
  }

  /** Key `k` is set exactly when some argument is a pair with that key, and
      its value is that of the last such pair. */
  lemma {:induction false} OptionsLastWins(args: seq<string>, k: string)
    ensures k in Options(args) <==> exists i :: 0 <= i < |args| && Defines(args[i], k)
    ensures k in Options(args) ==>
      exists i :: 0 <= i < |args| && Defines(args[i], k) && Options(args)[k] == Split(args[i], '=')[1]
        && forall j :: i < j < |args| ==> !Defines(args[j], k)
  {
    if args != [] {
      var n := |args| - 1;
      var init := args[..n];
      OptionsLastWins(init, k);
      OptionsLast(args, k);
      if Defines(args[n], k) {
        assert Options(args)[k] == Split(args[n], '=')[1];
      } else if k in Options(init) {
        var i :| 0 <= i < n && Defines(init[i], k) && Options(init)[k] == Split(init[i], '=')[1]
          && forall j :: i < j < n ==> !Defines(init[j], k);
        assert args[i] == init[i];
        forall j | i < j < |args|
          ensures !Defines(args[j], k)
        {
          if j < n {
            assert args[j] == init[j];
          }
        }
      } else {
        forall i | 0 <= i < |args|
          ensures !Defines(args[i], k)
        {
          if i < n {
            assert args[i] == init[i];
          }
        }
      }
    }
  }

  /** The last argument decides key `k` if it is a pair with that key, and
      leaves it as before otherwise. */
  lemma OptionsLast(args: seq<string>, k: string)
    requires args != []
    ensures Defines(args[|args| - 1], k) ==> k in Options(args) && Options(args)[k] == Split(args[|args| - 1], '=')[1]
    ensures !Defines(args[|args| - 1], k) ==>
      (k in Options(args) <==> k in Options(args[..|args| - 1]))
      && (k in Options(args) ==> Options(args)[k] == Options(args[..|args| - 1])[k])
  {
  }

  /** An argument with no `=`, or with more than one, sets nothing. */
  lemma MalformedSkipped(args: seq<string>, arg: string)
    requires Count(arg, '=') != 1
    ensures Options(args + [arg]) == Options(args)
  {
    SplitsInTwo(arg, '=');
    assert (args + [arg])[..|args|] == args;
  }

  /** `key=value` with no `=` in either half sets `key` to `value`, whatever
      came before. */
  lemma PairRoundTrip(args: seq<string>, k: string, v: string)
    requires '=' !in k && '=' !in v
    ensures Options(args + [k + "=" + v]) == Options(args)[k := v]
  {
    JoinSplit([k, v], '=');
    assert Join([k, v], "=") == k + "=" + v;
    assert (args + [k + "=" + v])[..|args|] == args;
  }
}
