/** Key distance for spelling suggestions: the two-row loop, the scripts it prices, and the metric laws. */
module EditDistance {
  import opened Prelude

  // ---------------------------------------------------------------------------------------------
  // Edit scripts
  // ---------------------------------------------------------------------------------------------

  datatype Edit = Keep | Substitute(c: char) | Insert(c: char) | Delete

  function EditCost(e: Edit): nat {
    if e.Keep? then 0 else 1
  }

  function Cost(script: seq<Edit>): nat {
    if script == [] then 0 else Cost(script[..|script| - 1]) + EditCost(script[|script| - 1])
  }

  /** Run a script on a text, consuming both from their right ends; None when it does not fit the text. */
  function Run(script: seq<Edit>, text: string): Option<string> {
    if script == [] then (if text == [] then Some([]) else None)
    else
      var front := script[..|script| - 1];
      match script[|script| - 1]
      case Insert(c) => Append(Run(front, text), c)
      case Delete => if text == [] then None else Run(front, text[..|text| - 1])
      case Keep => if text == [] then None else Append(Run(front, text[..|text| - 1]), text[|text| - 1])
      case Substitute(c) => if text == [] then None else Append(Run(front, text[..|text| - 1]), c)
  }

  function Append(text: Option<string>, c: char): Option<string> {
    match text
    case Some(t) => Some(t + [c])
    case None => None
  }

  ghost predicate Transforms(script: seq<Edit>, left: string, right: string) {
    Run(script, left) == Some(right)
  }

  lemma Extend(script: seq<Edit>, e: Edit, text: string)
    ensures (script + [e])[..|script|] == script
    ensures Cost(script + [e]) == Cost(script) + EditCost(e)
  {
    assert (script + [e])[..|script|] == script;
  }

  // ---------------------------------------------------------------------------------------------
  // The two-row loop
  // ---------------------------------------------------------------------------------------------

  function Min(a: nat, b: nat): nat {
    if a < b then a else b
  }

  /** The recurrence behind the rows, over prefixes. */
  function Distance(left: string, right: string): nat
    decreases |left| + |right|
  {
    if left == [] then |right|
    else if right == [] then |left|
    else
      var l, r := left[..|left| - 1], right[..|right| - 1];
      Min(Min(Distance(l, r) + (if left[|left| - 1] == right[|right| - 1] then 0 else 1),
              Distance(left, r) + 1),
          Distance(l, right) + 1)
  }

  /** `row` prices `left` against every prefix of `right` of length below `|row|`. */
  ghost predicate IsRow(row: seq<nat>, left: string, right: string) {
    |row| <= |right| + 1 && forall j :: 0 <= j < |row| ==> row[j] == Distance(left, right[..j])
  }

  /** One cell of the next row. */
  lemma NextCell(left: string, right: string, i: nat, j: nat)
    requires i < |left| && j < |right|
    ensures Distance(left[..i + 1], right[..j + 1]) ==
            Min(Min(Distance(left[..i], right[..j]) + (if left[i] == right[j] then 0 else 1),
                    Distance(left[..i + 1], right[..j]) + 1),
                Distance(left[..i], right[..j + 1]) + 1)
  {
    assert left[..i + 1][..i] == left[..i] && right[..j + 1][..j] == right[..j];
  }

  /** One pass of the outer loop: the row for one more character of `left`. */
  method NextRow(left: string, right: string, i: nat, previous: seq<nat>) returns (current: seq<nat>)
    requires i < |left| && |previous| == |right| + 1 && IsRow(previous, left[..i], right)
    ensures |current| == |right| + 1 && IsRow(current, left[..i + 1], right)
  {
    current := [i + 1];
    for j := 0 to |right|
      invariant |current| == j + 1 && IsRow(current, left[..i + 1], right)
    {
      var substitution := previous[j] + if left[i] != right[j] then 1 else 0;
      var insertion := current[j] + 1;
      var deletion := previous[j + 1] + 1;
      CellFromRows(left, right, i, j, previous, current);
      ghost var row := current;
      current := current + [Min(Min(substitution, insertion), deletion)];
      LongerRow(row, current[j + 1], left[..i + 1], right);
    }
  }

  /** The new cell, computed from the two rows. */
  lemma CellFromRows(left: string, right: string, i: nat, j: nat, previous: seq<nat>, current: seq<nat>)
    requires i < |left| && j < |right|
    requires |previous| == |right| + 1 && IsRow(previous, left[..i], right)
    requires |current| == j + 1 && IsRow(current, left[..i + 1], right)
    ensures Min(Min(previous[j] + if left[i] != right[j] then 1 else 0, current[j] + 1), previous[j + 1] + 1)
            == Distance(left[..i + 1], right[..j + 1])
  {
    NextCell(left, right, i, j);
  }

  lemma LongerRow(row: seq<nat>, cell: nat, left: string, right: string)
    requires |row| <= |right| && IsRow(row, left, right) && cell == Distance(left, right[..|row|])
    ensures IsRow(row + [cell], left, right)
  {
  }

  lemma FirstRow(right: string, row: seq<nat>)
    requires |row| == |right| + 1 && forall j :: 0 <= j <= |right| ==> row[j] == j
    ensures IsRow(row, "", right)
  {
  }

  /** `typed_dict_key_distance`: the two-row loop prices the cheapest edit script. */
  method TypedDictKeyDistance(left: string, right: string) returns (distance: nat)
    ensures distance == Distance(left, right)
    ensures exists script :: Transforms(script, left, right) && Cost(script) == distance
    ensures forall script :: Transforms(script, left, right) ==> distance <= Cost(script)
  {
    var previous: seq<nat> := seq(|right| + 1, j requires 0 <= j => j);
    FirstRow(right, previous);
    for i := 0 to |left|
      invariant |previous| == |right| + 1 && IsRow(previous, left[..i], right)
    {
      previous := NextRow(left, right, i, previous);
    }
    distance := previous[|right|];
    assert left[..|left|] == left && right[..|right|] == right;
    DistanceIsLeastCost(left, right);
  }

  /** The distance is the least cost of a script from `left` to `right`. */
  lemma DistanceIsLeastCost(left: string, right: string)
    ensures exists script :: Transforms(script, left, right) && Cost(script) == Distance(left, right)
    ensures forall script :: Transforms(script, left, right) ==> Distance(left, right) <= Cost(script)
  {
    var best := CheapestScript(left, right);
    forall script | Transforms(script, left, right)
      ensures Distance(left, right) <= Cost(script)
    {
      NoScriptIsCheaper(script, left, right);
    }
  }

  // ---------------------------------------------------------------------------------------------
  // The distance prices scripts
  // ---------------------------------------------------------------------------------------------

  /** Some script attains the distance. */
  lemma {:induction false} CheapestScript(left: string, right: string) returns (script: seq<Edit>)
    ensures Transforms(script, left, right) && Cost(script) == Distance(left, right)
    decreases |left| + |right|
  {
    if left == [] && right == [] {
      script := [];
      return;
    }
    var l := if left == [] then [] else left[..|left| - 1];
    var r := if right == [] then [] else right[..|right| - 1];
    var rest, last;
    if left == [] || (right != [] && Distance(left, right) == Distance(left, r) + 1) {
      rest := CheapestScript(left, r);
      last := Insert(right[|right| - 1]);
    } else if right == [] || Distance(left, right) == Distance(l, right) + 1 {
      rest := CheapestScript(l, right);
      last := Delete;
    } else {
      rest := CheapestScript(l, r);
      last := if left[|left| - 1] == right[|right| - 1] then Keep else Substitute(right[|right| - 1]);
    }
    script := rest + [last];
    Extend(rest, last, left);
    assert right != [] ==> right == r + [right[|right| - 1]];
  }

  /** Dropping the last character of either side changes the distance by at most one. */
  lemma {:induction false} DistanceSteps(left: string, right: string)
    ensures left != [] ==> Distance(left, right) <= Distance(left[..|left| - 1], right) + 1
    ensures right != [] ==> Distance(left, right) <= Distance(left, right[..|right| - 1]) + 1
  {
  }

  /** No script beats the distance. */
  lemma {:induction false} NoScriptIsCheaper(script: seq<Edit>, left: string, right: string)
    requires Transforms(script, left, right)
    ensures Distance(left, right) <= Cost(script)
    decreases |script|
  {
    if script == [] {
    } else {
      var front := script[..|script| - 1];
      DistanceSteps(left, right);
      match script[|script| - 1]
      case Insert(c) =>
        assert right[..|right| - 1] == Run(front, left).value;
        NoScriptIsCheaper(front, left, right[..|right| - 1]);
      case Delete =>
        NoScriptIsCheaper(front, left[..|left| - 1], right);
      case Keep =>
        assert right[..|right| - 1] == Run(front, left[..|left| - 1]).value;
        NoScriptIsCheaper(front, left[..|left| - 1], right[..|right| - 1]);
      case Substitute(c) =>
        assert right[..|right| - 1] == Run(front, left[..|left| - 1]).value;
        NoScriptIsCheaper(front, left[..|left| - 1], right[..|right| - 1]);
    }
  }

  // ---------------------------------------------------------------------------------------------
  // Metric laws
  // ---------------------------------------------------------------------------------------------

  lemma {:induction false} DistanceZeroIffEqual(left: string, right: string)
    ensures Distance(left, right) == 0 <==> left == right
    decreases |left| + |right|
  {
    if left == [] || right == [] {
    } else {
      var l, r := left[..|left| - 1], right[..|right| - 1];
      DistanceZeroIffEqual(l, r);
      assert left == l + [left[|left| - 1]] && right == r + [right[|right| - 1]];
    }
  }

  lemma {:induction false} DistanceIsSymmetric(left: string, right: string)
    ensures Distance(left, right) == Distance(right, left)
    decreases |left| + |right|
  {
    if left == [] || right == [] {
    } else {
      var l, r := left[..|left| - 1], right[..|right| - 1];
      DistanceIsSymmetric(l, r);
      DistanceIsSymmetric(left, r);
      DistanceIsSymmetric(l, right);
    }
  }

  /** At least the difference of the lengths, at most the longer length. */
  lemma {:induction false} DistanceBounds(left: string, right: string)
    ensures |left| <= |right| + Distance(left, right)
    ensures |right| <= |left| + Distance(left, right)
    ensures Distance(left, right) <= if |left| < |right| then |right| else |left|
    decreases |left| + |right|
  {
    if left == [] || right == [] {
    } else {
      var l, r := left[..|left| - 1], right[..|right| - 1];
      DistanceBounds(l, r);
      DistanceBounds(left, r);
      DistanceBounds(l, right);
    }
  }

  /** Two scripts, one after the other, can be done by one that costs no more. */
  lemma {:induction false} ComposeScripts(first: seq<Edit>, second: seq<Edit>, a: string, b: string, c: string)
    returns (both: seq<Edit>)
    requires Transforms(first, a, b) && Transforms(second, b, c)
    ensures Transforms(both, a, c) && Cost(both) <= Cost(first) + Cost(second)
    decreases |first| + |second|
  {
    var rest, last;
    if second != [] && second[|second| - 1].Insert? {
      last := second[|second| - 1];
      assert c[..|c| - 1] == Run(second[..|second| - 1], b).value;
      rest := ComposeScripts(first, second[..|second| - 1], a, b, c[..|c| - 1]);
    } else if first != [] && first[|first| - 1].Delete? {
      last := Delete;
      rest := ComposeScripts(first[..|first| - 1], second, a[..|a| - 1], b, c);
    } else if first == [] || second == [] {
      both := [];
      return;
    } else {
      both := ComposeLastEdits(first, second, a, b, c);
      return;
    }
    both := rest + [last];
    Extend(rest, last, a);
  }

  /** Both scripts work on the last character of the middle text. */
  lemma {:induction false} ComposeLastEdits(first: seq<Edit>, second: seq<Edit>, a: string, b: string, c: string)
    returns (both: seq<Edit>)
    requires Transforms(first, a, b) && Transforms(second, b, c)
    requires first != [] && second != [] && !second[|second| - 1].Insert? && !first[|first| - 1].Delete?
    ensures Transforms(both, a, c) && Cost(both) <= Cost(first) + Cost(second)
    decreases |first| + |second|, 0
  {
    var firstRest, made := first[..|first| - 1], first[|first| - 1];
    var secondRest, used := second[..|second| - 1], second[|second| - 1];
    var a' := if made.Insert? then a else a[..|a| - 1];
    assert b[..|b| - 1] == Run(firstRest, a').value;
    var c' := if used.Delete? then c else c[..|c| - 1];
    assert c' == Run(secondRest, b[..|b| - 1]).value;
    var rest := ComposeScripts(firstRest, secondRest, a', b[..|b| - 1], c');
    if made.Insert? && used.Delete? {
      both := rest;
    } else {
      var last := if used.Keep? then made
                  else if used.Delete? then Delete
                  else if made.Insert? then Insert(used.c)
                  else Substitute(used.c);
      both := rest + [last];
      Extend(rest, last, a);
    }
  }

  lemma {:induction false} TriangleInequality(a: string, b: string, c: string)
    ensures Distance(a, c) <= Distance(a, b) + Distance(b, c)
  {
    var first := CheapestScript(a, b);
    var second := CheapestScript(b, c);
    var both := ComposeScripts(first, second, a, b, c);
    NoScriptIsCheaper(both, a, c);
  }

  // ---------------------------------------------------------------------------------------------
  // Suggestions
  // ---------------------------------------------------------------------------------------------

  function SuggestionThreshold(key: string, candidate: string): nat {
    var longest := if |key| < |candidate| then |candidate| else |key|;
    if longest / 3 < 2 then 2 else longest / 3
  }

  /** At most two edits apart, or at most one edit for three characters of either key. */
  ghost predicate IsSuggestible(key: string, candidate: string) {
    var d := Distance(key, candidate);
    d <= 2 || 3 * d <= |key| || 3 * d <= |candidate|
  }

  lemma ThresholdIsSuggestible(key: string, candidate: string)
    ensures Distance(key, candidate) <= SuggestionThreshold(key, candidate) <==> IsSuggestible(key, candidate)
  {
  }

  /** Key `i` is suggestible, none is nearer, and none before it is as near. */
  ghost predicate IsFirstNearest(keys: seq<string>, key: string, i: nat)
    requires i < |keys|
  {
    && IsSuggestible(key, keys[i])
    && (forall j :: 0 <= j < |keys| && IsSuggestible(key, keys[j]) ==> Distance(key, keys[i]) <= Distance(key, keys[j]))
    && (forall j :: 0 <= j < i && IsSuggestible(key, keys[j]) ==> Distance(key, keys[i]) < Distance(key, keys[j]))
  }

  /** One more key: a strictly nearer one takes over, otherwise the first nearest stays. */
  lemma OneMoreKey(keys: seq<string>, key: string, i: nat, at: nat)
    requires at < i < |keys| && IsFirstNearest(keys[..i], key, at)
    ensures if IsSuggestible(key, keys[i]) && Distance(key, keys[i]) < Distance(key, keys[at])
            then IsFirstNearest(keys[..i + 1], key, i) else IsFirstNearest(keys[..i + 1], key, at)
  {
    assert keys[..i + 1] == keys[..i] + [keys[i]];
    assert forall j :: 0 <= j < i ==> keys[..i + 1][j] == keys[..i][j];
  }

  /**
   `closest_typed_dict_key` over the declared keys in ascending order: the first of the nearest keys among
   those within their threshold, if there is any.
   */
  method ClosestTypedDictKey(keys: seq<string>, key: string) returns (closest: Option<string>)
    ensures closest.None? <==> forall i :: 0 <= i < |keys| ==> !IsSuggestible(key, keys[i])
    ensures closest.Some? ==> exists i :: 0 <= i < |keys| && keys[i] == closest.value && IsFirstNearest(keys, key, i)
  {
    var best: nat, at := 0, -1;
    for i := 0 to |keys|
      invariant -1 <= at < i
      invariant at == -1 ==> forall j :: 0 <= j < i ==> !IsSuggestible(key, keys[j])
      invariant at >= 0 ==> best == Distance(key, keys[at]) && IsFirstNearest(keys[..i], key, at)
    {
      var distance := TypedDictKeyDistance(key, keys[i]);
      ThresholdIsSuggestible(key, keys[i]);
      if at >= 0 {
        OneMoreKey(keys, key, i, at);
      }
      if distance <= SuggestionThreshold(key, keys[i]) && (at == -1 || distance < best) {
        best, at := distance, i;
      }
    }
    assert keys[..|keys|] == keys;
    closest := if at == -1 then None else Some(keys[at]);
  }
}
