/** Command-line flags: the command engine looks a flag up with
    `commands.FirstOrDefault(a => a.StartsWith("--key="))?.Split('=')[1]`. */
module Flags {
  import opened Base
  import opened Text

  function Prefix(key: string): (p: string)
    ensures |p| == |key| + 3 && p[|p| - 1] == '='
  {
    "--" + key + "="
  }

  /** args[i] is the first argument that starts with `--key=`. */
  predicate FirstWith(args: seq<string>, key: string, i: int)
  {
    0 <= i < |args| && IsPrefix(Prefix(key), args[i])
    && forall j :: 0 <= j < i ==> !IsPrefix(Prefix(key), args[j])
  }

  /** The value of the first argument that starts with `--key=`, cut at the
      argument's second `=`; None (C#'s null) when no argument starts so. */
  function Lookup(args: seq<string>, key: string): Option<string>
  {
    if |args| == 0 then None
    else if IsPrefix(Prefix(key), args[0]) then
      assert args[0][|Prefix(key)| - 1] == '=';
      Some(Split(args[0], '=')[1])
    else Lookup(args[1..], key)
  }

  /** Lookup finds the first argument starting with `--key=` and takes the
      second piece of it split at `=`; it gives null exactly when no
      argument starts with `--key=`. */
  lemma {:induction false} LookupFinds(args: seq<string>, key: string)
    ensures Lookup(args, key).None? <==> forall i :: 0 <= i < |args| ==> !IsPrefix(Prefix(key), args[i])
    ensures Lookup(args, key).Some? ==>
      exists i :: FirstWith(args, key, i) && '=' in args[i] && Lookup(args, key).value == Split(args[i], '=')[1]
  {
    if |args| > 0 {
      if IsPrefix(Prefix(key), args[0]) {
        assert FirstWith(args, key, 0);
        assert args[0][|Prefix(key)| - 1] == '=';
      } else {
        var r := Lookup(args[1..], key);
        LookupFinds(args[1..], key);
        assert forall i :: 1 <= i < |args| ==> args[i] == args[1..][i - 1];
        if r.Some? {
          var i :| FirstWith(args[1..], key, i) && '=' in args[1..][i] && r.value == Split(args[1..][i], '=')[1];
          assert FirstWith(args, key, i + 1);
        }
      }
    }
  }

  /** `!string.IsNullOrEmpty(value)`: a flag that was given a non-empty value. */
  predicate Given(value: Option<string>)
  {
    value.Some? && value.value != ""
  }

  /** tok is `--key=` followed by v, and v ends at the token's end or at an `=`. */
  predicate Carries(tok: string, key: string, v: string)
  {
    var head := Prefix(key) + v;
    IsPrefix(head, tok) && (|tok| == |head| || tok[|head|] == '=')
  }

  /** For a key without `=` (all the engine's keys), the looked-up value is
      the text between the first and the second `=` of the first matching
      argument. */
  lemma LookupValue(args: seq<string>, key: string)
    requires '=' !in key
    ensures match Lookup(args, key)
      case None => true
      case Some(v) =>
        '=' !in v && exists i :: FirstWith(args, key, i) && Carries(args[i], key, v)
  {
    var r := Lookup(args, key);
    LookupFinds(args, key);
    if r.Some? {
      var i :| FirstWith(args, key, i) && '=' in args[i] && r.value == Split(args[i], '=')[1];
      var tok := args[i];
      var p := Prefix(key);
      var rest := tok[|p|..];
      assert tok == ("--" + key) + ['='] + rest by {
        assert tok == tok[..|p|] + rest;
      }
      SplitAtSeparator("--" + key, '=', rest);
      SplitFirstPiece(rest, '=');
      var v := r.value;
      assert v == Split(rest, '=')[0];
      assert tok[..|p + v|] == p + v;
      assert Carries(tok, key, v);
    }
  }
}
