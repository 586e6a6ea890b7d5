/** TypedDict literals: the entry check, the dicts a literal builds at run time, and soundness of the check. */
module TypedDictLiteral {
  import opened Prelude
  import opened SemanticTypes

  datatype Field = Field(valueType: Option<SemanticType>, required: bool, readonly: bool)

  datatype ExtraItems = ExtraItems(valueType: Option<SemanticType>)

  datatype Shape = Shape(fields: map<string, Field>, closed: bool, extraItems: Option<ExtraItems>) {
    /** `typed_dict_known_or_extra_field`: the value type a key is held to, if the key is allowed. */
    function KnownOrExtra(key: string): Option<Option<SemanticType>> {
      if key in fields then Some(fields[key].valueType)
      else if extraItems.Some? then Some(extraItems.value.valueType)
      else None
    }

    predicate HasUnboundedExtraKeys() {
      !closed && extraItems.None?
    }
  }

  /** An entry with what is known of its value: the value's type, or the type and shape of a `**` source. */
  datatype Entry =
    | Keyed(key: Option<string>, valueType: Option<SemanticType>)
    | Expansion(isResolved: bool, shape: Option<Shape>)

  datatype Diagnostic =
    | InvalidExpansion
    | OpenExpansion
    | UnknownKey(key: string)
    | WrongType(key: string)
    | ExtraItemsRejected
    | NonLiteralKey
    | MissingRequired(key: string)

  /** `assignable(expected, actual)`, as the checker decides it. */
  type Assignability = (SemanticType, SemanticType) -> bool

  // ---------------------------------------------------------------------------------------------
  // What the check reports
  // ---------------------------------------------------------------------------------------------

  ghost predicate TypesClash(assignable: Assignability, expected: Option<SemanticType>, actual: Option<SemanticType>) {
    expected.Some? && actual.Some? && !assignable(expected.value, actual.value)
  }

  /** What is reported about one field of a `**` source. */
  ghost predicate FieldReports(assignable: Assignability, target: Shape, key: string, field: Field, d: Diagnostic) {
    var slot := target.KnownOrExtra(key);
    || (slot.None? && d == UnknownKey(key))
    || (slot.Some? && TypesClash(assignable, slot.value, field.valueType) && d == WrongType(key))
  }

  /** The target takes no additional keys, or cannot be shown to take the source's. */
  ghost predicate ExtraItemsClash(assignable: Assignability, target: Shape, source: Shape) {
    && source.extraItems.Some?
    && (|| target.extraItems.None?
        || target.extraItems.value.valueType.None?
        || source.extraItems.value.valueType.None?
        || !assignable(target.extraItems.value.valueType.value, source.extraItems.value.valueType.value))
  }

  /** Any value may come under a key that the shape does not declare. */
  ghost predicate IsOpen(shape: Shape) {
    !shape.closed && shape.extraItems == None
  }

  ghost predicate EntryReports(assignable: Assignability, target: Shape, e: Entry, d: Diagnostic) {
    match e
    case Keyed(None, _) => d == NonLiteralKey
    case Keyed(Some(key), valueType) =>
      var slot := target.KnownOrExtra(key);
      || (slot.None? && d == UnknownKey(key))
      || (slot.Some? && TypesClash(assignable, slot.value, valueType) && d == WrongType(key))
    case Expansion(isResolved, shape) =>
      if !isResolved || shape.None? then d == InvalidExpansion
      else if IsOpen(shape.value) && target.extraItems.None? then d == OpenExpansion
      else
        || (exists key :: key in shape.value.fields && FieldReports(assignable, target, key, shape.value.fields[key], d))
        || (ExtraItemsClash(assignable, target, shape.value) && d == ExtraItemsRejected)
  }

  /** A required field of a `**` source counts as present when both its types are known. */
  ghost predicate FieldGuarantees(target: Shape, key: string, field: Field) {
    var slot := target.KnownOrExtra(key);
    slot.Some? && slot.value.Some? && field.valueType.Some? && field.required
  }

  /** The keys an entry is taken to leave in the dict. */
  ghost predicate Guarantees(target: Shape, e: Entry, key: string) {
    match e
    case Keyed(k, valueType) =>
      k == Some(key) && target.KnownOrExtra(key).Some? && (valueType.Some? ==> target.KnownOrExtra(key).value.Some?)
    case Expansion(isResolved, shape) =>
      && isResolved && shape.Some?
      && !(IsOpen(shape.value) && target.extraItems.None?)
      && key in shape.value.fields && FieldGuarantees(target, key, shape.value.fields[key])
  }

  ghost predicate Reported(assignable: Assignability, target: Shape, entries: seq<Entry>, d: Diagnostic) {
    || (exists i :: 0 <= i < |entries| && EntryReports(assignable, target, entries[i], d))
    || (d.MissingRequired? && d.key in target.fields && target.fields[d.key].required
        && forall i :: 0 <= i < |entries| ==> !Guarantees(target, entries[i], d.key))
  }

  /** The loop over the fields of a `**` source. */
  method CheckExpansionFields(assignable: Assignability, target: Shape, source: Shape)
    returns (diagnostics: seq<Diagnostic>, guaranteed: set<string>)
    ensures forall d :: d in diagnostics <==> exists key :: key in source.fields && FieldReports(assignable, target, key, source.fields[key], d)
    ensures forall key :: key in guaranteed <==> key in source.fields && FieldGuarantees(target, key, source.fields[key])
  {
    diagnostics, guaranteed := [], {};
    var left := source.fields.Keys;
    while left != {}
      invariant left <= source.fields.Keys
      invariant forall d :: d in diagnostics <==>
        exists key :: key in source.fields && key !in left && FieldReports(assignable, target, key, source.fields[key], d)
      invariant forall key :: key in guaranteed <==> key in source.fields && key !in left && FieldGuarantees(target, key, source.fields[key])
      decreases left
    {
      var key :| key in left;
      left := left - {key};
      var field := source.fields[key];
      var slot := target.KnownOrExtra(key);
      if slot.None? {
        diagnostics := diagnostics + [UnknownKey(key)];
        continue;
      }
      if slot.value.None? || field.valueType.None? {
        continue;
      }
      if !assignable(slot.value.value, field.valueType.value) {
        diagnostics := diagnostics + [WrongType(key)];
      }
      if field.required {
        guaranteed := guaranteed + {key};
      }
    }
  }

  /** One entry of the literal. */
  method CheckEntry(assignable: Assignability, target: Shape, e: Entry) returns (diagnostics: seq<Diagnostic>, guaranteed: set<string>)
    ensures forall d :: d in diagnostics <==> EntryReports(assignable, target, e, d)
    ensures forall key :: key in guaranteed <==> Guarantees(target, e, key)
  {
    diagnostics, guaranteed := [], {};
    match e
    case Expansion(isResolved, shape) =>
      if !isResolved || shape.None? {
        return [InvalidExpansion], {};
      }
      var source := shape.value;
      if source.HasUnboundedExtraKeys() && target.extraItems.None? {
        return [OpenExpansion], {};
      }
      diagnostics, guaranteed := CheckExpansionFields(assignable, target, source);
      if source.extraItems.Some? {
        var targetExtra := if target.extraItems.Some? then target.extraItems.value.valueType else None;
        var sourceExtra := source.extraItems.value.valueType;
        if targetExtra.None? || sourceExtra.None? || !assignable(targetExtra.value, sourceExtra.value) {
          diagnostics := diagnostics + [ExtraItemsRejected];
        }
      }
    case Keyed(key, valueType) =>
      if key.None? {
        return [NonLiteralKey], {};
      }
      var slot := target.KnownOrExtra(key.value);
      if slot.None? {
        return [UnknownKey(key.value)], {};
      }
      if valueType.Some? {
        if slot.value.None? {
          return;
        }
        if !assignable(slot.value.value, valueType.value) {
          diagnostics := [WrongType(key.value)];
        }
      }
      guaranteed := {key.value};
  }

  /** `typed_dict_literal_entry_diagnostics`: the entries in order, then the required keys left over. */
  method TypedDictLiteralEntryDiagnostics(assignable: Assignability, target: Shape, entries: seq<Entry>) returns (diagnostics: seq<Diagnostic>)
    ensures forall d :: d in diagnostics <==> Reported(assignable, target, entries, d)
  {
    diagnostics := [];
    var guaranteedKeys: set<string> := {};
    for i := 0 to |entries|
      invariant forall d :: d in diagnostics <==> exists j :: 0 <= j < i && EntryReports(assignable, target, entries[j], d)
      invariant forall key :: key in guaranteedKeys <==> exists j :: 0 <= j < i && Guarantees(target, entries[j], key)
    {
      var more, guaranteed := CheckEntry(assignable, target, entries[i]);
      diagnostics := diagnostics + more;
      guaranteedKeys := guaranteedKeys + guaranteed;
    }
    ghost var fromEntries := diagnostics;
    var left := target.fields.Keys;
    while left != {}
      invariant left <= target.fields.Keys
      invariant forall d :: d in diagnostics <==>
        d in fromEntries
        || (d.MissingRequired? && d.key in target.fields && d.key !in left && target.fields[d.key].required && d.key !in guaranteedKeys)
      decreases left
    {
      var key :| key in left;
      left := left - {key};
      if target.fields[key].required && key !in guaranteedKeys {
        diagnostics := diagnostics + [MissingRequired(key)];
      }
    }
  }

  // ---------------------------------------------------------------------------------------------
  // Run time
  // ---------------------------------------------------------------------------------------------

  /** Membership of values in types; an unresolved type is held to admit every value. */
  datatype Typing<!V(!new)> = Typing(has: (V, SemanticType) -> bool) {
    ghost predicate Has(v: V, ty: Option<SemanticType>) {
      ty.Some? ==> has(v, ty.value)
    }

    /** What the checker calls assignable holds of all values. */
    ghost predicate Sound(assignable: Assignability) {
      forall expected, actual, v :: assignable(expected, actual) && has(v, actual) ==> has(v, expected)
    }

    /** What the checker does not call assignable fails for some value, and every type has a value. */
    ghost predicate Complete(assignable: Assignability) {
      && (forall expected, actual :: !assignable(expected, actual) ==> exists v :: has(v, actual) && !has(v, expected))
      && (forall ty :: Inhabited(ty))
    }

    ghost predicate Inhabited(ty: SemanticType) {
      exists v :: has(v, ty)
    }

    /** A dict of the shape: required keys present, values of their types, other keys only as the shape allows. */
    ghost predicate Conforms(shape: Shape, dict: map<string, V>) {
      && (forall key :: key in shape.fields && shape.fields[key].required ==> key in dict)
      && (forall key :: key in dict && key in shape.fields ==> Has(dict[key], shape.fields[key].valueType))
      && (forall key :: key in dict && key !in shape.fields ==>
            if shape.extraItems.Some? then Has(dict[key], shape.extraItems.value.valueType) else !shape.closed)
    }

    /** A declared key takes values of its type, any other only what additional keys take. */
    ghost predicate Admits(target: Shape, key: string, v: V) {
      if key in target.fields then Has(v, target.fields[key].valueType)
      else target.extraItems.Some? && Has(v, target.extraItems.value.valueType)
    }

    /** What a correct literal builds: every required key, and under every key an admitted value. */
    ghost predicate Fits(target: Shape, dict: map<string, V>) {
      && (forall key :: key in target.fields && target.fields[key].required ==> key in dict)
      && (forall key :: key in dict ==> Admits(target, key, dict[key]))
    }

    /** What evaluating one entry may contribute. */
    ghost predicate Contributes(e: Entry, piece: map<string, V>) {
      match e
      case Keyed(None, _) => true
      case Keyed(Some(key), valueType) => piece.Keys == {key} && Has(piece[key], valueType)
      case Expansion(_, shape) => shape.Some? ==> Conforms(shape.value, piece)
    }
  }

  /** Later entries override earlier ones. */
  function Build<V>(pieces: seq<map<string, V>>): map<string, V> {
    if pieces == [] then map[] else Build(pieces[..|pieces| - 1]) + pieces[|pieces| - 1]
  }

  // ---------------------------------------------------------------------------------------------
  // Soundness
  // ---------------------------------------------------------------------------------------------

  /** The checker could resolve what the entry holds. */
  ghost predicate Resolved(e: Entry) {
    match e
    case Keyed(_, valueType) => valueType.Some?
    case Expansion(_, shape) => shape.Some? ==> forall key :: key in shape.value.fields ==> shape.value.fields[key].valueType.Some?
  }

  /** Additional keys of the source cannot clash with a key the target declares. */
  ghost predicate ExtrasFitFields(assignable: Assignability, target: Shape, source: Shape) {
    forall key :: key in target.fields && key !in source.fields ==>
      !TypesClash(assignable, target.fields[key].valueType, if source.extraItems.Some? then source.extraItems.value.valueType else None)
  }

  /** A closed source, or one whose extra items also fit the target's declared keys. */
  ghost predicate SafeSource(assignable: Assignability, target: Shape, source: Shape) {
    || (source.closed && source.extraItems.None?)
    || (source.extraItems.Some? && ExtrasFitFields(assignable, target, source))
  }

  ghost predicate SafeEntry(assignable: Assignability, target: Shape, e: Entry) {
    Resolved(e) && (e.Expansion? && e.shape.Some? ==> SafeSource(assignable, target, e.shape.value))
  }

  /** What an unreported entry contributes is well typed in the target, key by key. */
  lemma PieceIsTyped<V(!new)>(t: Typing<V>, assignable: Assignability, target: Shape, e: Entry, piece: map<string, V>)
    requires t.Sound(assignable) && SafeEntry(assignable, target, e)
    requires forall d :: !EntryReports(assignable, target, e, d)
    requires t.Contributes(e, piece)
    ensures forall key :: key in piece ==> t.Admits(target, key, piece[key])
  {
    match e
    case Keyed(key, valueType) =>
      assert !EntryReports(assignable, target, e, NonLiteralKey);
      assert !EntryReports(assignable, target, e, UnknownKey(key.value));
      assert !EntryReports(assignable, target, e, WrongType(key.value));
    case Expansion(_, shape) =>
      assert !EntryReports(assignable, target, e, InvalidExpansion);
      assert !EntryReports(assignable, target, e, OpenExpansion);
      assert !EntryReports(assignable, target, e, ExtraItemsRejected);
      var source := shape.value;
      forall key | key in piece
        ensures t.Admits(target, key, piece[key])
      {
        if key in source.fields {
          assert !FieldReports(assignable, target, key, source.fields[key], UnknownKey(key)) by {
            assert !EntryReports(assignable, target, e, UnknownKey(key));
          }
          assert !FieldReports(assignable, target, key, source.fields[key], WrongType(key)) by {
            assert !EntryReports(assignable, target, e, WrongType(key));
          }
        }
      }
  }

  /** What an unreported entry guarantees is among what it contributes. */
  lemma GuaranteeIsKept<V(!new)>(t: Typing<V>, target: Shape, e: Entry, piece: map<string, V>, key: string)
    requires t.Contributes(e, piece) && Guarantees(target, e, key)
    ensures key in piece
  {
  }

  lemma {:induction false} BuildIsTyped<V(!new)>(t: Typing<V>, assignable: Assignability, target: Shape, entries: seq<Entry>, pieces: seq<map<string, V>>)
    requires t.Sound(assignable) && |pieces| == |entries|
    requires forall i :: 0 <= i < |entries| ==> SafeEntry(assignable, target, entries[i]) && t.Contributes(entries[i], pieces[i])
    requires forall i, d :: 0 <= i < |entries| ==> !EntryReports(assignable, target, entries[i], d)
    ensures forall key :: key in Build(pieces) ==> t.Admits(target, key, Build(pieces)[key])
    decreases |pieces|
  {
    if pieces == [] {
    } else {
      var last := |pieces| - 1;
      BuildIsTyped(t, assignable, target, entries[..last], pieces[..last]);
      PieceIsTyped(t, assignable, target, entries[last], pieces[last]);
    }
  }

  lemma {:induction false} BuildKeepsKeys<V>(pieces: seq<map<string, V>>, i: nat, key: string)
    requires i < |pieces| && key in pieces[i]
    ensures key in Build(pieces)
    decreases |pieces|
  {
    if i == |pieces| - 1 {
    } else {
      BuildKeepsKeys(pieces[..|pieces| - 1], i, key);
    }
  }

  /**
   Soundness: when every value resolves and every `**` source is safe, a literal without diagnostics always
   builds a dict with all required keys, each key of its declared or extra-items type, whichever optional
   keys the sources bring and whatever is overridden.
   */
  lemma CleanLiteralFits<V(!new)>(t: Typing<V>, assignable: Assignability, target: Shape, entries: seq<Entry>, pieces: seq<map<string, V>>)
    requires t.Sound(assignable) && |pieces| == |entries|
    requires forall d :: !Reported(assignable, target, entries, d)
    requires forall i :: 0 <= i < |entries| ==> SafeEntry(assignable, target, entries[i]) && t.Contributes(entries[i], pieces[i])
    ensures t.Fits(target, Build(pieces))
  {
    forall i, d | 0 <= i < |entries|
      ensures !EntryReports(assignable, target, entries[i], d)
    {
      assert !Reported(assignable, target, entries, d);
    }
    BuildIsTyped(t, assignable, target, entries, pieces);
    forall key | key in target.fields && target.fields[key].required
      ensures key in Build(pieces)
    {
      assert !Reported(assignable, target, entries, MissingRequired(key));
      var i :| 0 <= i < |entries| && Guarantees(target, entries[i], key);
      GuaranteeIsKept(t, target, entries[i], pieces[i], key);
      BuildKeepsKeys(pieces, i, key);
    }
  }

  // ---------------------------------------------------------------------------------------------
  // Nothing is reported without need
  // ---------------------------------------------------------------------------------------------

  ghost function Member<V(!new)>(t: Typing<V>, assignable: Assignability, ty: SemanticType): (v: V)
    requires t.Complete(assignable)
    ensures t.has(v, ty)
  {
    assert t.Inhabited(ty);
    var v :| t.has(v, ty);
    v
  }

  /** The least dict of the source: its required keys only. */
  ghost function LeastDict<V(!new)>(t: Typing<V>, assignable: Assignability, source: Shape): (dict: map<string, V>)
    requires t.Complete(assignable) && Resolved(Expansion(true, Some(source)))
    ensures t.Conforms(source, dict) && forall key :: key in dict <==> key in source.fields && source.fields[key].required
  {
    map key | key in source.fields && source.fields[key].required :: Member(t, assignable, source.fields[key].valueType.value)
  }

  /** The same with one chosen value. */
  ghost function DictWith<V(!new)>(t: Typing<V>, assignable: Assignability, source: Shape, chosen: string, v: V): (dict: map<string, V>)
    requires t.Complete(assignable) && Resolved(Expansion(true, Some(source)))
    requires if chosen in source.fields then t.Has(v, source.fields[chosen].valueType)
             else if source.extraItems.Some? then t.Has(v, source.extraItems.value.valueType) else !source.closed
    ensures t.Conforms(source, dict) && chosen in dict && dict[chosen] == v
  {
    LeastDict(t, assignable, source)[chosen := v]
  }

  /** A literal key with a known type, or a safe `**` source whose types are known. */
  ghost predicate Plain(assignable: Assignability, target: Shape, e: Entry) {
    match e
    case Keyed(key, valueType) => key.Some? && valueType.Some?
    case Expansion(isResolved, shape) =>
      && isResolved && shape.Some? && Resolved(e) && SafeSource(assignable, target, shape.value)
      && (shape.value.extraItems.Some? ==> shape.value.extraItems.value.valueType.Some?)
  }

  ghost predicate ResolvedTarget(target: Shape) {
    && (forall key :: key in target.fields ==> target.fields[key].valueType.Some?)
    && (target.extraItems.Some? ==> target.extraItems.value.valueType.Some?)
  }

  /** What a plain entry contributes at the least. */
  ghost function LeastPiece<V(!new)>(t: Typing<V>, assignable: Assignability, target: Shape, e: Entry): (piece: map<string, V>)
    requires t.Complete(assignable) && Plain(assignable, target, e)
    ensures t.Contributes(e, piece)
  {
    match e
    case Keyed(key, valueType) => map[key.value := Member(t, assignable, valueType.value)]
    case Expansion(_, shape) => LeastDict(t, assignable, shape.value)
  }

  /** A plain entry that is reported on may contribute a value under a key that the target does not admit there. */
  lemma ReportedEntryMisfits<V(!new)>(t: Typing<V>, assignable: Assignability, target: Shape, e: Entry, d: Diagnostic)
    returns (piece: map<string, V>, key: string)
    requires t.Complete(assignable) && ResolvedTarget(target) && Plain(assignable, target, e) && EntryReports(assignable, target, e, d)
    ensures t.Contributes(e, piece) && key in piece && !t.Admits(target, key, piece[key])
  {
    match e
    case Keyed(k, valueType) =>
      key := k.value;
      var v := Member(t, assignable, valueType.value);
      if d.WrongType? {
        v :| t.has(v, valueType.value) && !t.has(v, target.KnownOrExtra(key).value.value);
      }
      piece := map[key := v];
    case Expansion(_, shape) =>
      var source := shape.value;
      if key' :| key' in source.fields && FieldReports(assignable, target, key', source.fields[key'], d) {
        key := key';
        var v := Member(t, assignable, source.fields[key].valueType.value);
        if d.WrongType? {
          v :| t.has(v, source.fields[key].valueType.value) && !t.has(v, target.KnownOrExtra(key).value.value);
        }
        piece := DictWith(t, assignable, source, key, v);
      } else {
        piece, key := RejectedExtraMisfits(t, assignable, target, source);
      }
  }

  /** Strings never run out. */
  lemma FreshKey(keys: set<string>) returns (key: string)
    ensures key !in keys
    ensures forall k :: k in keys ==> |k| < |key|
    decreases keys
  {
    if keys == {} {
      key := "x";
    } else {
      var k :| k in keys;
      var shorter := FreshKey(keys - {k});
      key := shorter + k + "x";
    }
  }

  /** Additional keys that clash bring a value that the target does not admit, under a key that neither side names. */
  lemma RejectedExtraMisfits<V(!new)>(t: Typing<V>, assignable: Assignability, target: Shape, source: Shape)
    returns (piece: map<string, V>, key: string)
    requires t.Complete(assignable) && ResolvedTarget(target) && Resolved(Expansion(true, Some(source)))
    requires ExtraItemsClash(assignable, target, source) && source.extraItems.value.valueType.Some?
    ensures t.Conforms(source, piece) && key in piece && !t.Admits(target, key, piece[key])
  {
    var extra := source.extraItems.value.valueType.value;
    key := FreshKey(source.fields.Keys + target.fields.Keys);
    var v := Member(t, assignable, extra);
    if target.extraItems.Some? {
      v :| t.has(v, extra) && !t.has(v, target.extraItems.value.valueType.value);
    }
    piece := DictWith(t, assignable, source, key, v);
  }

  /** The least an entry contributes has a required key of the target exactly if the entry counts as guaranteeing it. */
  lemma LeastPieceKeys<V(!new)>(t: Typing<V>, assignable: Assignability, target: Shape, e: Entry, key: string)
    requires t.Complete(assignable) && Plain(assignable, target, e) && ResolvedTarget(target) && key in target.fields
    ensures key in LeastPiece(t, assignable, target, e) <==> Guarantees(target, e, key)
  {
  }

  lemma {:induction false} BuildHasOnly<V>(pieces: seq<map<string, V>>, key: string)
    requires forall i :: 0 <= i < |pieces| ==> key !in pieces[i]
    ensures key !in Build(pieces)
    decreases |pieces|
  {
    if pieces == [] {
    } else {
      BuildHasOnly(pieces[..|pieces| - 1], key);
    }
  }

  /** Each entry's keys and values are admitted, and together they bring every required key. */
  ghost predicate Correct<V(!new)>(t: Typing<V>, target: Shape, pieces: seq<map<string, V>>) {
    && (forall i, key :: 0 <= i < |pieces| && key in pieces[i] ==> t.Admits(target, key, pieces[i][key]))
    && (forall key :: key in target.fields && target.fields[key].required ==> key in Build(pieces))
  }

  ghost predicate Contribution<V(!new)>(t: Typing<V>, entries: seq<Entry>, pieces: seq<map<string, V>>) {
    |pieces| == |entries| && forall i :: 0 <= i < |entries| ==> t.Contributes(entries[i], pieces[i])
  }

  /** A report on a plain literal is never without need: the literal may contribute something wrong. */
  lemma ReportedLiteralMisfits<V(!new)>(t: Typing<V>, assignable: Assignability, target: Shape, entries: seq<Entry>, d: Diagnostic)
    returns (pieces: seq<map<string, V>>)
    requires t.Complete(assignable) && ResolvedTarget(target) && forall i :: 0 <= i < |entries| ==> Plain(assignable, target, entries[i])
    requires Reported(assignable, target, entries, d)
    ensures Contribution(t, entries, pieces) && !Correct(t, target, pieces)
  {
    pieces := seq(|entries|, i requires 0 <= i < |entries| => LeastPiece(t, assignable, target, entries[i]));
    if i :| 0 <= i < |entries| && EntryReports(assignable, target, entries[i], d) {
      var piece, key := ReportedEntryMisfits(t, assignable, target, entries[i], d);
      pieces := pieces[i := piece];
      assert key in pieces[i] && !t.Admits(target, key, pieces[i][key]);
    } else {
      forall i | 0 <= i < |entries| ensures d.key !in pieces[i] {
        LeastPieceKeys(t, assignable, target, entries[i], d.key);
      }
      BuildHasOnly(pieces, d.key);
    }
  }

  /**
   For plain entries nothing is reported if and only if whatever the literal contributes is correct; a wrong entry is
   reported also where a later one overrides it.
   */
  lemma ReportsAreExactIff<V(!new)>(t: Typing<V>, assignable: Assignability, target: Shape, entries: seq<Entry>)
    requires t.Sound(assignable) && t.Complete(assignable) && ResolvedTarget(target)
    requires forall i :: 0 <= i < |entries| ==> Plain(assignable, target, entries[i])
    ensures (forall d :: !Reported(assignable, target, entries, d)) <==>
            forall pieces: seq<map<string, V>> :: Contribution(t, entries, pieces) ==> Correct(t, target, pieces)
  {
    if d :| Reported(assignable, target, entries, d) {
      var pieces := ReportedLiteralMisfits(t, assignable, target, entries, d);
    } else {
      forall pieces: seq<map<string, V>> | Contribution(t, entries, pieces)
        ensures Correct(t, target, pieces)
      {
        CleanLiteralFits(t, assignable, target, entries, pieces);
        forall i, key | 0 <= i < |pieces| && key in pieces[i] ensures t.Admits(target, key, pieces[i][key]) {
          assert forall d :: EntryReports(assignable, target, entries[i], d) ==> Reported(assignable, target, entries, d);
          PieceIsTyped(t, assignable, target, entries[i], pieces[i]);
        }
      }
    }
  }

  /** A safe `**` source alone is unreported if and only if all its dicts fit the target. */
  lemma SafeSourceFitsIff<V(!new)>(t: Typing<V>, assignable: Assignability, target: Shape, source: Shape)
    requires t.Sound(assignable) && t.Complete(assignable) && ResolvedTarget(target)
    requires Plain(assignable, target, Expansion(true, Some(source)))
    ensures (forall d :: !Reported(assignable, target, [Expansion(true, Some(source))], d)) <==>
            forall dict: map<string, V> :: t.Conforms(source, dict) ==> t.Fits(target, dict)
  {
    var entries := [Expansion(true, Some(source))];
    ReportsAreExactIff(t, assignable, target, entries);
    forall dict: map<string, V>
      ensures Contribution(t, entries, [dict]) <==> t.Conforms(source, dict)
      ensures Correct(t, target, [dict]) <==> t.Fits(target, dict)
    {
      assert [dict][..0] == [] && Build([dict]) == dict && [dict][0] == dict && entries[0].Expansion?;
    }
    forall pieces: seq<map<string, V>> | Contribution(t, entries, pieces) ensures pieces == [pieces[0]] {
    }
  }

  // ---------------------------------------------------------------------------------------------
  // Sources with extra items, exactly
  // ---------------------------------------------------------------------------------------------

  /**
   For a source with resolved extra items whose expansion alone is not reported: every dict it can bring fits
   the target exactly when its extra items also fit the declared keys the source does not name.  The check
   itself compares extra items with extra items only.
   */
  lemma ExtraItemsFitIff<V(!new)>(t: Typing<V>, assignable: Assignability, target: Shape, source: Shape)
    requires t.Sound(assignable) && t.Complete(assignable)
    requires Resolved(Expansion(true, Some(source))) && source.extraItems.Some? && source.extraItems.value.valueType.Some?
    requires forall d :: !Reported(assignable, target, [Expansion(true, Some(source))], d)
    ensures (forall dict: map<string, V> :: t.Conforms(source, dict) ==> t.Fits(target, dict)) <==> ExtrasFitFields(assignable, target, source)
  {
    var e := Expansion(true, Some(source));
    if ExtrasFitFields(assignable, target, source) {
      forall dict: map<string, V> | t.Conforms(source, dict)
        ensures t.Fits(target, dict)
      {
        CleanLiteralFits(t, assignable, target, [e], [dict]);
        assert [dict][..0] == [] && Build([dict]) == dict;
      }
    } else {
      var key :| key in target.fields && key !in source.fields && TypesClash(assignable, target.fields[key].valueType, source.extraItems.value.valueType);
      var v :| t.has(v, source.extraItems.value.valueType.value) && !t.has(v, target.fields[key].valueType.value);
      var dict := DictWith(t, assignable, source, key, v);
      assert t.Conforms(source, dict) && !t.Fits(target, dict);
    }
  }

  /** An open source may bring any value under a key it does not name, also one the target does not take there. */
  lemma OpenSourceMayNotFit<V(!new)>(t: Typing<V>, assignable: Assignability, target: Shape, source: Shape, key: string, v: V)
    returns (dict: map<string, V>)
    requires t.Complete(assignable) && Resolved(Expansion(true, Some(source))) && IsOpen(source)
    requires key !in source.fields && !t.Admits(target, key, v)
    ensures t.Conforms(source, dict) && !t.Fits(target, dict)
  {
    dict := DictWith(t, assignable, source, key, v);
  }

  /** Under every key that the source does not declare the target takes any value whatever. */
  ghost predicate AdmitsAnything<V(!new)>(t: Typing<V>, target: Shape, source: Shape) {
    forall key, v :: key !in source.fields ==> t.Admits(target, key, v)
  }

  /** An open source that is not reported always fits if and only if the target takes any value under the keys the source leaves open. */
  lemma OpenSourceFitsIff<V(!new)>(t: Typing<V>, assignable: Assignability, target: Shape, source: Shape)
    requires t.Sound(assignable) && t.Complete(assignable)
    requires Resolved(Expansion(true, Some(source))) && IsOpen(source)
    requires forall d :: !Reported(assignable, target, [Expansion(true, Some(source))], d)
    ensures (forall dict: map<string, V> :: t.Conforms(source, dict) ==> t.Fits(target, dict)) <==> AdmitsAnything(t, target, source)
    ensures target.extraItems.Some?
  {
    var entries := [Expansion(true, Some(source))];
    assert entries[0] == Expansion(true, Some(source));
    assert !Reported(assignable, target, entries, OpenExpansion);
    if AdmitsAnything(t, target, source) {
      forall dict: map<string, V> | t.Conforms(source, dict)
        ensures t.Fits(target, dict)
      {
        forall key | key in dict
          ensures t.Admits(target, key, dict[key])
        {
          assert !Reported(assignable, target, entries, WrongType(key)) && !Reported(assignable, target, entries, UnknownKey(key));
          assert key in source.fields ==> !FieldReports(assignable, target, key, source.fields[key], WrongType(key));
        }
        forall key | key in target.fields && target.fields[key].required
          ensures key in dict
        {
          assert !Reported(assignable, target, entries, MissingRequired(key));
        }
      }
    } else {
      var key, v :| key !in source.fields && !t.Admits(target, key, v);
      var dict := OpenSourceMayNotFit(t, assignable, target, source, key, v);
    }
  }
}
