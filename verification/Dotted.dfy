/** Dotted names: the textual form `a.b.c` and its components.  Configuration
    leaves (sysadmin/reload.py) and Python modules (sysadmin/ops_claims.py)
    are both named this way, and both files reason about prefixes of the text
    where they mean prefixes of the components. */
module Dotted {

  /** `".".join(parts)` */
  function Join(parts: seq<string>): string
  {
    if |parts| == 0 then ""
    else if |parts| == 1 then parts[0]
    else parts[0] + "." + Join(parts[1..])
  }

  /** `text.split(".")` */
  function Split(text: string): (parts: seq<string>)
    ensures |parts| >= 1
    ensures Join(parts) == text
    ensures forall i | 0 <= i < |parts| :: '.' !in parts[i]
  {
    if text == "" then [""]
    else
      var rest := Split(text[1..]);
      if text[0] == '.' then
        [""] + rest
      else
        var parts := [[text[0]] + rest[0]] + rest[1..];
        assert parts[1..] == rest[1..];
        parts
  }

  /** A component that can be read back out of a dotted name. */
  predicate IsKey(key: string) {
    key != "" && '.' !in key
  }

  predicate IsKeyPath(parts: seq<string>) {
    forall i | 0 <= i < |parts| :: IsKey(parts[i])
  }

  /** Splitting distributes over a joining dot. */
  lemma {:induction false} SplitAppend(left: string, right: string)
    ensures Split(left + "." + right) == Split(left) + Split(right)
  {
    var whole := left + "." + right;
    if left == "" {
      assert whole[1..] == right;
    } else {
      assert whole[1..] == left[1..] + "." + right;
      SplitAppend(left[1..], right);
    }
  }

  lemma {:induction false} SplitKey(key: string)
    requires '.' !in key
    ensures Split(key) == [key]
  {
    if key != "" {
      SplitKey(key[1..]);
      assert [key[0]] + key[1..] == key;
    }
  }

  /** Round trip: components without dots survive being joined. */
  lemma {:induction false} SplitJoin(parts: seq<string>)
    requires |parts| >= 1
    requires forall i | 0 <= i < |parts| :: '.' !in parts[i]
    ensures Split(Join(parts)) == parts
  {
    SplitKey(parts[0]);
    if |parts| > 1 {
      SplitJoin(parts[1..]);
      SplitAppend(parts[0], Join(parts[1..]));
    }
  }

  lemma {:induction false} JoinAppend(left: seq<string>, right: seq<string>)
    requires |left| >= 1 && |right| >= 1
    ensures Join(left + right) == Join(left) + "." + Join(right)
  {
    if |left| == 1 {
      assert (left + right)[1..] == right;
    } else {
      assert (left + right)[1..] == left[1..] + right;
      JoinAppend(left[1..], right);
    }
  }

  lemma JoinNonEmpty(parts: seq<string>)
    requires IsKeyPath(parts)
    ensures (Join(parts) == "") <==> (parts == [])
  {
  }

  /** Joining key paths is injective. */
  lemma JoinInjective(a: seq<string>, b: seq<string>)
    requires IsKeyPath(a) && IsKeyPath(b)
    requires Join(a) == Join(b)
    ensures a == b
  {
    JoinNonEmpty(a);
    JoinNonEmpty(b);
    if a != [] {
      SplitJoin(a);
      SplitJoin(b);
    }
  }

  /** The textual test `path == p or path.startswith(p + ".")`. */
  predicate TextUnder(prefix: string, path: string) {
    path == prefix || prefix + "." <= path
  }

  /** The textual test means exactly that the components of the prefix are
      leading components of the path, for every pair of strings. */
  lemma TextUnderIsComponentPrefix(prefix: string, path: string)
    ensures TextUnder(prefix, path) <==> Split(prefix) <= Split(path)
  {
    if prefix + "." <= path {
      var tail := path[|prefix| + 1..];
      assert path == prefix + "." + tail;
      SplitAppend(prefix, tail);
    }
    if Split(prefix) <= Split(path) {
      var rest := Split(path)[|Split(prefix)|..];
      assert Split(path) == Split(prefix) + rest;
      if rest == [] {
        assert Split(path) == Split(prefix);
      } else {
        JoinAppend(Split(prefix), rest);
      }
    }
  }
}
