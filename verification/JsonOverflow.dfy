/** A printed value with a number in it that overflows on reading is refused. */
module JsonOverflow {
  import opened JsonText
  import opened JsonReading

  /** Every number rounds or overflows, and apart from the numbers the value can be read back at the depth. */
  ghost predicate Fair(lib: Library, v: Json, depth: nat) {
    match v
    case Number(x) => Rounds(lib, x) || Overflows(lib, x)
    case Array(items) =>
      (items != [] ==> depth < MaxDepth) && forall i :: 0 <= i < |items| ==> Fair(lib, items[i], depth + 1)
    case Object(fields) =>
      && DistinctKeys(fields) && (fields != [] ==> depth < MaxDepth)
      && forall i :: 0 <= i < |fields| ==> Fair(lib, fields[i].value, depth + 1)
    case _ => true
  }

  ghost predicate FairItems(lib: Library, items: seq<Json>, depth: nat) {
    (items != [] ==> depth < MaxDepth) && forall i :: 0 <= i < |items| ==> Fair(lib, items[i], depth + 1)
  }

  ghost predicate FairFields(lib: Library, fields: seq<Field>, depth: nat) {
    (fields != [] ==> depth < MaxDepth) && forall i :: 0 <= i < |fields| ==> Fair(lib, fields[i].value, depth + 1)
  }

  ghost predicate AllReadable(lib: Library, items: seq<Json>) {
    forall i :: 0 <= i < |items| ==> Readable(lib, items[i])
  }

  ghost predicate AllFieldsReadable(lib: Library, fields: seq<Field>) {
    forall i :: 0 <= i < |fields| ==> Readable(lib, fields[i].value)
  }

  lemma {:induction false} KnownIsFair(lib: Library, v: Json, depth: nat)
    requires Known(lib, v) && KeysUnique(v) && Within(v, depth)
    ensures Fair(lib, v, depth)
  {
    if v.Array? {
      forall i | 0 <= i < |v.items| ensures Fair(lib, v.items[i], depth + 1) {
        KnownIsFair(lib, v.items[i], depth + 1);
      }
    } else if v.Object? {
      forall i | 0 <= i < |v.fields| ensures Fair(lib, v.fields[i].value, depth + 1) {
        KnownIsFair(lib, v.fields[i].value, depth + 1);
      }
    }
  }

  lemma {:induction false} FairIsGood(lib: Library, v: Json, depth: nat)
    requires Fair(lib, v, depth) && Readable(lib, v)
    ensures Good(lib, v, depth)
  {
    if v.Array? {
      forall i | 0 <= i < |v.items| ensures Good(lib, v.items[i], depth + 1) {
        FairIsGood(lib, v.items[i], depth + 1);
      }
    } else if v.Object? {
      forall i | 0 <= i < |v.fields| ensures Good(lib, v.fields[i].value, depth + 1) {
        FairIsGood(lib, v.fields[i].value, depth + 1);
      }
    }
  }

  lemma {:induction false} FairRest(lib: Library, items: seq<Json>, depth: nat)
    requires items != [] && FairItems(lib, items, depth)
    ensures depth < MaxDepth && Fair(lib, items[0], depth + 1) && FairItems(lib, items[1..], depth)
    ensures AllReadable(lib, items) <==> Readable(lib, items[0]) && AllReadable(lib, items[1..])
  {
    if Readable(lib, items[0]) && AllReadable(lib, items[1..]) {
      forall i | 0 <= i < |items| ensures Readable(lib, items[i]) {
        assert i > 0 ==> items[i] == items[1..][i - 1];
      }
    }
  }

  lemma {:induction false} FairRestOfFields(lib: Library, fields: seq<Field>, depth: nat)
    requires fields != [] && FairFields(lib, fields, depth)
    ensures depth < MaxDepth && Fair(lib, fields[0].value, depth + 1) && FairFields(lib, fields[1..], depth)
    ensures AllFieldsReadable(lib, fields) <==> Readable(lib, fields[0].value) && AllFieldsReadable(lib, fields[1..])
  {
    if Readable(lib, fields[0].value) && AllFieldsReadable(lib, fields[1..]) {
      forall i | 0 <= i < |fields| ensures Readable(lib, fields[i].value) {
        assert i > 0 ==> fields[i] == fields[1..][i - 1];
      }
    }
  }

  /** The text of a value with an overflowing number is refused, wherever it stands in the input. */
  lemma {:induction false} ValueFails(lib: Library, text: Bytes, pos: nat, v: Json, depth: nat, r: Outcome<Json>)
    requires depth <= MaxDepth && Fair(lib, v, depth) && !Readable(lib, v)
    requires At(text, pos, Dump(v, lib.fraction)) && Stops(text, pos + |Dump(v, lib.fraction)|)
    requires r == ParseValue(lib.scan, text, pos, depth)
    ensures r.Failed?
    decreases v, 1
  {
    match v {
      case Array(items) =>
        ListText(lib, text, pos, items);
        ListOpens(lib.scan, text, pos, depth);
        ItemsFail(lib, text, pos + 1, depth, [], items, DumpItems(items, lib.fraction), r);
      case Object(fields) =>
        ObjectText(lib, text, pos, fields);
        ObjectOpens(lib.scan, text, pos, depth);
        FieldsFail(lib, text, pos + 1, depth, [], fields, DumpFields(fields, lib.fraction), r);
      case Number(x) =>
        LibraryNumberFails(lib, text, pos, NumberText(lib, x));
        DumpStarts(lib, v);
        ScalarStep(lib.scan, text, pos, depth);
      case _ =>
    }
  }

  lemma {:induction false} ItemStops(scan: Strtod, text: Bytes, pos: nat, depth: nat, before: seq<Json>,
                                     v: Outcome<Json>,
                                     r: Outcome<Json>)
    requires pos <= |text| && v == ParseValue(scan, text, pos, depth + 1) && v.Failed?
    requires r == ParseItems(scan, text, pos, depth, before)
    ensures r.Failed?
  {
  }

  lemma {:induction false} MemberStops(scan: Strtod, text: Bytes, pos: nat, depth: nat, before: seq<Field>, key: Bytes,
                                       v: Outcome<Json>, r: Outcome<Json>)
    requires pos <= |text| && v == ParseValue(scan, text, pos, depth + 1) && v.Failed?
    requires r == ParseMember(scan, text, pos, depth, before, key)
    ensures r.Failed?
  {
  }

  /** The first element is read and others follow. */
  lemma {:induction false} ItemPasses(lib: Library, text: Bytes, pos: nat, depth: nat, before: seq<Json>,
                                      items: seq<Json>, dump: Bytes, r: Outcome<Json>)
    returns (e: nat, rest: Bytes, before': seq<Json>)
    requires |items| > 1 && depth < MaxDepth && Good(lib, items[0], depth + 1)
    requires dump == DumpItems(items, lib.fraction) && At(text, pos, dump + [CLOSE_LIST])
    requires r == ParseItems(lib.scan, text, pos, depth, before)
    ensures rest == DumpItems(items[1..], lib.fraction) && At(text, e + 1, rest + [CLOSE_LIST])
    ensures e < |text| && r == ParseItems(lib.scan, text, e + 1, depth, before')
  {
    e, rest := ItemsText(lib, text, pos, items, dump);
    before' := before + [Rounded(lib, items[0])];
    ItemRead(lib, text, pos, depth, items[0], e);
    var more := ParseItems(lib.scan, text, e + 1, depth, before');
    ItemStep(lib.scan, text, pos, depth, before, Rounded(lib, items[0]), e, r, more);
  }

  lemma {:induction false} ItemsFail(lib: Library, text: Bytes, pos: nat, depth: nat, before: seq<Json>,
                                     items: seq<Json>,
                                     dump: Bytes, r: Outcome<Json>)
    requires FairItems(lib, items, depth) && !AllReadable(lib, items)
    requires dump == DumpItems(items, lib.fraction) && At(text, pos, dump + [CLOSE_LIST])
    requires r == ParseItems(lib.scan, text, pos, depth, before)
    ensures r.Failed?
    decreases items, 0
  {
    FairRest(lib, items, depth);
    if Readable(lib, items[0]) {
      FairIsGood(lib, items[0], depth + 1);
      var e, rest, before' := ItemPasses(lib, text, pos, depth, before, items, dump, r);
      ItemsFail(lib, text, e + 1, depth, before', items[1..], rest, r);
    } else {
      var e, rest := ItemsText(lib, text, pos, items, dump);
      ItemRefused(lib, text, pos, depth, items[0], e);
      ItemStops(lib.scan, text, pos, depth, before, ParseValue(lib.scan, text, pos, depth + 1), r);
    }
  }

  /** The first member is read and others follow. */
  lemma {:induction false} FieldPasses(lib: Library, text: Bytes, pos: nat, depth: nat, before: seq<Field>,
                                       fields: seq<Field>, dump: Bytes, r: Outcome<Json>)
    returns (e: nat, rest: Bytes, before': seq<Field>)
    requires |fields| > 1 && depth < MaxDepth && Good(lib, fields[0].value, depth + 1)
    requires dump == DumpFields(fields, lib.fraction) && At(text, pos, dump + [CLOSE_OBJECT])
    requires r == ParseMembers(lib.scan, text, pos, depth, before)
    ensures rest == DumpFields(fields[1..], lib.fraction) && At(text, e + 1, rest + [CLOSE_OBJECT])
    ensures e < |text| && r == ParseMembers(lib.scan, text, e + 1, depth, before')
  {
    var f := RoundedField(lib, fields[0]);
    var q;
    q, e, rest := FieldsText(lib, text, pos, fields, dump);
    before' := Set(before, f.key, f.value);
    ItemRead(lib, text, q, depth, fields[0].value, e);
    var more := ParseMembers(lib.scan, text, e + 1, depth, before');
    FieldStep(lib.scan, text, pos, depth, before, before', f, q, e, r, more);
  }

  /** The first member's value is refused. */
  lemma {:induction false} FieldStops(lib: Library, text: Bytes, pos: nat, depth: nat, before: seq<Field>,
                                      fields: seq<Field>, dump: Bytes, r: Outcome<Json>)
    requires fields != [] && depth < MaxDepth && Fair(lib, fields[0].value, depth + 1)
    requires !Readable(lib, fields[0].value)
    requires dump == DumpFields(fields, lib.fraction) && At(text, pos, dump + [CLOSE_OBJECT])
    requires r == ParseMembers(lib.scan, text, pos, depth, before)
    ensures r.Failed?
    decreases fields[0].value, 3
  {
    var q, e, rest := FieldsText(lib, text, pos, fields, dump);
    ItemRefused(lib, text, q, depth, fields[0].value, e);
    KeyedStops(lib.scan, text, pos, depth, before, fields[0].key, q, r);
  }

  lemma {:induction false} KeyedStops(scan: Strtod, text: Bytes, pos: nat, depth: nat, before: seq<Field>, key: Bytes,
                                      q: nat,
                                      r: Outcome<Json>)
    requires pos <= |text| && ParseKey(text, pos) == Done(key, q) && ParseValue(scan, text, q, depth + 1).Failed?
    requires r == ParseMembers(scan, text, pos, depth, before)
    ensures r.Failed?
  {
    KeyedStep(scan, text, pos, depth, before, key, q, r);
    MemberStops(scan, text, q, depth, before, key, ParseValue(scan, text, q, depth + 1), r);
  }

  lemma {:induction false} ItemRefused(lib: Library, text: Bytes, pos: nat, depth: nat, item: Json, e: nat)
    requires depth < MaxDepth && Fair(lib, item, depth + 1) && !Readable(lib, item)
    requires At(text, pos, Dump(item, lib.fraction)) && e == pos + |Dump(item, lib.fraction)|
    requires e < |text| && (text[e] == COMMA || text[e] == CLOSE_LIST || text[e] == CLOSE_OBJECT)
    ensures ParseValue(lib.scan, text, pos, depth + 1).Failed?
    decreases item, 2
  {
    ValueFails(lib, text, pos, item, depth + 1, ParseValue(lib.scan, text, pos, depth + 1));
  }

  lemma {:induction false} FieldsFail(lib: Library, text: Bytes, pos: nat, depth: nat, before: seq<Field>,
                                      fields: seq<Field>, dump: Bytes, r: Outcome<Json>)
    requires FairFields(lib, fields, depth) && !AllFieldsReadable(lib, fields)
    requires dump == DumpFields(fields, lib.fraction) && At(text, pos, dump + [CLOSE_OBJECT])
    requires r == ParseMembers(lib.scan, text, pos, depth, before)
    ensures r.Failed?
    decreases fields, 0
  {
    FairRestOfFields(lib, fields, depth);
    if Readable(lib, fields[0].value) {
      FairIsGood(lib, fields[0].value, depth + 1);
      var e, rest, before' := FieldPasses(lib, text, pos, depth, before, fields, dump, r);
      FieldsFail(lib, text, e + 1, depth, before', fields[1..], rest, r);
    } else {
      FieldStops(lib, text, pos, depth, before, fields, dump, r);
    }
  }
}
