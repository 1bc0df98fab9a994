/** The title distance: the two-row dynamic programme against shortest edit scripts. */
module EditDistance {

  type Bytes = seq<bv8>

  /** One edit at a position of the text as it is when the edit is applied. */
  datatype Edit = Insert(at: nat, byte: bv8) | Delete(at: nat) | Substitute(at: nat, byte: bv8)

  predicate Applies(e: Edit, text: Bytes) {
    match e
    case Insert(at, _) => at <= |text|
    case Delete(at) => at < |text|
    case Substitute(at, _) => at < |text|
  }

  function Apply(e: Edit, text: Bytes): Bytes
    requires Applies(e, text)
  {
    match e
    case Insert(at, byte) => text[..at] + [byte] + text[at..]
    case Delete(at) => text[..at] + text[at + 1..]
    case Substitute(at, byte) => text[..at] + [byte] + text[at + 1..]
  }

  /** The script, applied edit by edit, turns `left` into `right`. */
  predicate Turns(script: seq<Edit>, left: Bytes, right: Bytes)
    decreases |script|
  {
    if script == [] then left == right
    else Applies(script[0], left) && Turns(script[1..], Apply(script[0], left), right)
  }

  function Min3(a: nat, b: nat, c: nat): nat {
    var m := if b < a then b else a;
    if c < m then c else m
  }

  function Differ(a: bv8, b: bv8): nat {
    if a != b then 1 else 0
  }

  function Init(s: Bytes): Bytes
    requires s != []
  {
    s[..|s| - 1]
  }

  function Last(s: Bytes): bv8
    requires s != []
  {
    s[|s| - 1]
  }

  /** The recurrence the rows of the programme follow, on prefixes. */
  function Distance(left: Bytes, right: Bytes): nat
    decreases |left| + |right|
  {
    if left == [] then |right|
    else if right == [] then |left|
    else Min3(
      Distance(Init(left), right) + 1,
      Distance(left, Init(right)) + 1,
      Distance(Init(left), Init(right)) + Differ(Last(left), Last(right)))
  }

  lemma {:induction false} DistanceToSelf(s: Bytes)
    ensures Distance(s, s) == 0
    decreases |s|
  {
    if s != [] {
      DistanceToSelf(Init(s));
    }
  }

  lemma {:induction false} ZeroMeansEqual(left: Bytes, right: Bytes)
    requires Distance(left, right) == 0
    ensures left == right
    decreases |left|
  {
    if left != [] && right != [] {
      ZeroMeansEqual(Init(left), Init(right));
      assert left == Init(left) + [Last(left)] && right == Init(right) + [Last(right)];
    }
  }

  lemma Recurrence(left: Bytes, right: Bytes, up: nat, before: nat, diagonal: nat)
    requires left != [] && right != []
    requires up == Distance(Init(left), right) && before == Distance(left, Init(right))
    requires diagonal == Distance(Init(left), Init(right))
    ensures Distance(left, right) == Min3(up + 1, before + 1, diagonal + Differ(Last(left), Last(right)))
  {
  }

  /** Row i of the table: the distances from the first i bytes of `left` to every prefix of `right`. */
  function Row(left: Bytes, right: Bytes, i: nat): seq<nat>
    requires i <= |left|
  {
    seq(|right| + 1, j requires 0 <= j <= |right| => Distance(left[..i], right[..j]))
  }

  lemma Cell(left: Bytes, right: Bytes, i: nat, j: nat)
    requires i < |left| && j < |right|
    ensures Row(left, right, i + 1)[j + 1] == Min3(
              Row(left, right, i)[j + 1] + 1,
              Row(left, right, i + 1)[j] + 1,
              Row(left, right, i)[j] + Differ(left[i], right[j]))
  {
    var a, b := left[..i + 1], right[..j + 1];
    assert Init(a) == left[..i] && Last(a) == left[i];
    assert Init(b) == right[..j] && Last(b) == right[j];
    Recurrence(a, b, Row(left, right, i)[j + 1], Row(left, right, i + 1)[j], Row(left, right, i)[j]);
  }

  /** The programme itself: `previous` is row i of the table, `current` becomes row i + 1. */
  method LevenshteinDistance(left: Bytes, right: Bytes) returns (d: nat)
    ensures d == Distance(left, right)
  {
    if left == right {
      DistanceToSelf(left);
      return 0;
    }
    var n := |right|;
    var previous := new nat[n + 1](j => j);
    var current := new nat[n + 1](_ => 0);
    for i := 0 to |left|
      invariant previous != current && previous.Length == n + 1 && current.Length == n + 1
      invariant fresh(previous) && fresh(current)
      invariant previous[..] == Row(left, right, i)
    {
      FillRow(left, right, i, previous, current);
      previous, current := current, previous;
    }
    assert left[..|left|] == left && right[..n] == right;
    return previous[n];
  }

  /** The inner loop: one row from the row above it. */
  method FillRow(left: Bytes, right: Bytes, i: nat, previous: array<nat>, current: array<nat>)
    requires i < |left| && previous != current
    requires current.Length == |right| + 1 && previous[..] == Row(left, right, i)
    modifies current
    ensures current[..] == Row(left, right, i + 1)
  {
    ghost var above, row := Row(left, right, i), Row(left, right, i + 1);
    current[0] := i + 1;
    for j := 0 to |right|
      invariant current[..j + 1] == row[..j + 1]
    {
      Cell(left, right, i, j);
      assert previous[j + 1] == above[j + 1] && previous[j] == above[j] && current[j] == current[..j + 1][j] == row[j];
      current[j + 1] := Min3(previous[j + 1] + 1, current[j] + 1, previous[j] + Differ(left[i], right[j]));
      assert current[..j + 2] == current[..j + 1] + [row[j + 1]];
    }
    assert current[..] == current[..|right| + 1] && row == row[..|right| + 1];
  }

  // ---------- the recurrence is a metric ----------

  lemma {:induction false} DistanceSymmetric(left: Bytes, right: Bytes)
    ensures Distance(left, right) == Distance(right, left)
    decreases |left| + |right|
  {
    if left != [] && right != [] {
      DistanceSymmetric(Init(left), right);
      DistanceSymmetric(left, Init(right));
      DistanceSymmetric(Init(left), Init(right));
    }
  }

  lemma {:induction false} LengthBound(left: Bytes, right: Bytes)
    ensures |left| <= |right| + Distance(left, right)
    decreases |left| + |right|
  {
    if left != [] && right != [] {
      LengthBound(Init(left), right);
      LengthBound(left, Init(right));
      LengthBound(Init(left), Init(right));
    }
  }

  lemma {:induction false} Triangle(a: Bytes, b: Bytes, c: Bytes)
    ensures Distance(a, c) <= Distance(a, b) + Distance(b, c)
    decreases |a| + |b| + |c|
  {
    if a == [] {
      LengthBound(c, b);
      DistanceSymmetric(b, c);
    } else if c == [] {
      LengthBound(a, b);
    } else if b == [] {
      Triangle(Init(a), b, c);
    } else {
      Triangle(Init(a), b, c);
      Triangle(a, b, Init(c));
      Triangle(a, Init(b), c);
      Triangle(a, Init(b), Init(c));
      Triangle(Init(a), Init(b), c);
      Triangle(Init(a), Init(b), Init(c));
    }
  }

  // ---------- no script is shorter ----------

  lemma {:induction false} CommonSuffix(a: Bytes, b: Bytes, suffix: Bytes)
    ensures Distance(a + suffix, b + suffix) <= Distance(a, b)
    decreases |suffix|
  {
    if suffix == [] {
      assert a + suffix == a && b + suffix == b;
    } else {
      CommonSuffix(a, b, Init(suffix));
      assert Init(a + suffix) == a + Init(suffix) && Init(b + suffix) == b + Init(suffix);
    }
  }

  lemma LastByte(head: Bytes, gone: Bytes, came: Bytes)
    requires |gone| <= 1 && |came| <= 1
    ensures Distance(head + gone, head + came) <= 1
  {
    DistanceToSelf(head);
    if gone == [] {
      assert head + gone == head;
      if came == [] {
        assert head + came == head;
      } else {
        assert Init(head + came) == head;
      }
    } else if came == [] {
      assert head + came == head && Init(head + gone) == head;
    } else {
      assert Init(head + gone) == head && Init(head + came) == head;
      Recurrence(
        head + gone, head + came, Distance(head, head + came), Distance(head + gone, head), Distance(head, head));
    }
  }

  /** Two texts that differ by at most one byte before a common rest are at most 1 apart. */
  lemma OneByte(head: Bytes, gone: Bytes, came: Bytes, rest: Bytes)
    requires |gone| <= 1 && |came| <= 1
    ensures Distance(head + gone + rest, head + came + rest) <= 1
  {
    LastByte(head, gone, came);
    CommonSuffix(head + gone, head + came, rest);
  }

  /** An edit seen as replacing `gone` by `came` between the head and the rest of the text. */
  function Gone(e: Edit, text: Bytes): Bytes
    requires Applies(e, text)
  {
    if e.Insert? then [] else [text[e.at]]
  }

  function Came(e: Edit): Bytes {
    if e.Delete? then [] else [e.byte]
  }

  lemma EditSplits(e: Edit, text: Bytes)
    requires Applies(e, text)
    ensures var rest := text[e.at + |Gone(e, text)|..];
      && text == text[..e.at] + Gone(e, text) + rest
      && Apply(e, text) == text[..e.at] + Came(e) + rest
  {
  }

  lemma OneEdit(e: Edit, text: Bytes)
    requires Applies(e, text)
    ensures Distance(text, Apply(e, text)) <= 1
  {
    EditSplits(e, text);
    OneByte(text[..e.at], Gone(e, text), Came(e), text[e.at + |Gone(e, text)|..]);
  }

  lemma {:induction false} NoScriptIsShorter(script: seq<Edit>, left: Bytes, right: Bytes)
    requires Turns(script, left, right)
    ensures Distance(left, right) <= |script|
    decreases |script|
  {
    if script == [] {
      DistanceToSelf(left);
    } else {
      var next := Apply(script[0], left);
      OneEdit(script[0], left);
      NoScriptIsShorter(script[1..], next, right);
      Triangle(left, next, right);
    }
  }

  // ---------- a script of that length exists ----------

  lemma {:induction false} TurnsThen(first: seq<Edit>, last: Edit, left: Bytes, middle: Bytes)
    requires Turns(first, left, middle) && Applies(last, middle)
    ensures Turns(first + [last], left, Apply(last, middle))
    decreases |first|
  {
    if first == [] {
      assert [last][1..] == [];
    } else {
      TurnsThen(first[1..], last, Apply(first[0], left), middle);
      assert (first + [last])[1..] == first[1..] + [last];
    }
  }

  lemma ApplyBefore(e: Edit, text: Bytes, suffix: Bytes)
    requires Applies(e, text)
    ensures Applies(e, text + suffix) && Apply(e, text + suffix) == Apply(e, text) + suffix
  {
    assert (text + suffix)[..e.at] == text[..e.at];
    assert (text + suffix)[e.at..] == text[e.at..] + suffix;
    if !e.Insert? {
      assert (text + suffix)[e.at + 1..] == text[e.at + 1..] + suffix;
    }
  }

  lemma {:induction false} TurnsBefore(script: seq<Edit>, left: Bytes, right: Bytes, suffix: Bytes)
    requires Turns(script, left, right)
    ensures Turns(script, left + suffix, right + suffix)
    decreases |script|
  {
    if script != [] {
      var e := script[0];
      ApplyBefore(e, left, suffix);
      TurnsBefore(script[1..], Apply(e, left), right, suffix);
    }
  }

  lemma DropLast(script: seq<Edit>, left: Bytes, right: Bytes)
    requires left != [] && Turns(script, Init(left), right)
    ensures Turns([Delete(|left| - 1)] + script, left, right)
  {
    assert Apply(Delete(|left| - 1), left) == Init(left);
    assert ([Delete(|left| - 1)] + script)[1..] == script;
  }

  lemma AddLast(script: seq<Edit>, left: Bytes, right: Bytes)
    requires right != [] && Turns(script, left, Init(right))
    ensures Turns(script + [Insert(|right| - 1, Last(right))], left, right)
  {
    assert Apply(Insert(|right| - 1, Last(right)), Init(right)) == right;
    TurnsThen(script, Insert(|right| - 1, Last(right)), left, Init(right));
  }

  lemma KeepLast(script: seq<Edit>, left: Bytes, right: Bytes)
    requires left != [] && right != [] && Turns(script, Init(left), Init(right))
    ensures Last(left) == Last(right) ==> Turns(script, left, right)
    ensures Turns(script + [Substitute(|right| - 1, Last(right))], left, right)
  {
    var e := Substitute(|right| - 1, Last(right));
    var middle := Init(right) + [Last(left)];
    assert left == Init(left) + [Last(left)] && right == Init(right) + [Last(right)];
    TurnsBefore(script, Init(left), Init(right), [Last(left)]);
    assert middle[..|right| - 1] == Init(right) && middle[|right|..] == [];
    assert Apply(e, middle) == right;
    TurnsThen(script, e, left, middle);
  }

  lemma {:induction false} ShortestScript(left: Bytes, right: Bytes) returns (script: seq<Edit>)
    ensures Turns(script, left, right) && |script| == Distance(left, right)
    decreases |left| + |right|
  {
    if left == [] && right == [] {
      script := [];
    } else if right == [] || (left != [] && Distance(left, right) == Distance(Init(left), right) + 1) {
      script := ShortestScript(Init(left), right);
      DropLast(script, left, right);
      script := [Delete(|left| - 1)] + script;
    } else if left == [] || Distance(left, right) == Distance(left, Init(right)) + 1 {
      script := ShortestScript(left, Init(right));
      AddLast(script, left, right);
      script := script + [Insert(|right| - 1, Last(right))];
    } else {
      script := ShortestScript(Init(left), Init(right));
      KeepLast(script, left, right);
      if Last(left) != Last(right) {
        script := script + [Substitute(|right| - 1, Last(right))];
      }
    }
  }

  /** What the programme returns: a script of that length exists and none is shorter. */
  lemma DistanceIsShortest(left: Bytes, right: Bytes)
    ensures exists script :: Turns(script, left, right) && |script| == Distance(left, right)
    ensures forall script :: Turns(script, left, right) ==> Distance(left, right) <= |script|
  {
    var script := ShortestScript(left, right);
    forall script | Turns(script, left, right) ensures Distance(left, right) <= |script| {
      NoScriptIsShorter(script, left, right);
    }
  }
}
