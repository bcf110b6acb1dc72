/** validateArguments of game.js: the move list given on the command line must
    have at least three entries, an odd number of them, and no repeated name. */
module Arguments {
  import opened MoveRules

  /** The names in the list, as the Set the source builds from it. */
  function Elements(args: seq<string>): (names: set<string>) {
    set a | a in args
  }

  /** The Set built from a list is no larger than the list, and exactly as
      large when no name repeats. */
  lemma {:induction false} ElementsSize(args: seq<string>)
    ensures |Elements(args)| <= |args|
    ensures |Elements(args)| == |args| <==> Distinct(args)
  {
    if args != [] {
      var rest := args[1..];
      ElementsSize(rest);
      assert Elements(args) == {args[0]} + Elements(rest);
      if args[0] in rest {
        assert Elements(args) == Elements(rest);
        var j :| 0 <= j < |rest| && rest[j] == args[0];
        assert args[j + 1] == args[0];
      } else {
        assert Distinct(args) <==> Distinct(rest) by {
          if Distinct(rest) {
            forall i, j | 0 <= i < j < |args|
              ensures args[i] != args[j]
            {
              if i > 0 {
                assert args[i] == rest[i - 1] && args[j] == rest[j - 1];
              } else {
                assert args[j] == rest[j - 1];
              }
            }
          }
          if Distinct(args) {
            forall i, j | 0 <= i < j < |rest|
              ensures rest[i] != rest[j]
            {
              assert rest[i] == args[i + 1] && rest[j] == args[j + 1];
            }
          }
        }
      }
    }
  }

  /** validateArguments: false (after printing usage) when there are fewer than
      three names, an even number of them, or a repeated one; true otherwise. */
  function ValidateArguments(args: seq<string>): (ok: bool)
    ensures ok <==> |args| >= 3 && |args| % 2 == 1 && Distinct(args)
  {
    ElementsSize(args);
    !(|args| < 3 || |args| % 2 == 0 || |Elements(args)| != |args|)
  }

  /** A repeated name, an even count and a good list. */
  lemma ValidationExamples()
    ensures !ValidateArguments(["a", "a", "b"])
    ensures !ValidateArguments(["a", "b"])
    ensures ValidateArguments(["a", "b", "c"])
    ensures ValidateArguments(["rock", "paper", "scissors", "lizard", "Spock"])
  {
    var dup := ["a", "a", "b"];
    assert dup[0] == dup[1];
  }
}
