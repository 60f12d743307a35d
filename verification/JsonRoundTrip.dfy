/** Printing and parsing undo each other, and exactly for which values. */
module JsonRoundTrip {
  import opened JsonText
  import opened JsonReading
  import opened JsonOverflow

  predicate AllSpaces(tail: Bytes) {
    forall i :: 0 <= i && i < |tail| ==> Space(tail[i])
  }

  lemma {:induction false} SpacesSkipped(text: Bytes, pos: nat)
    requires pos <= |text| && forall i :: pos <= i && i < |text| ==> Space(text[i])
    ensures SkipSpace(text, pos) == |text|
  {
  }

  lemma {:induction false} WholeText(dump: Bytes, tail: Bytes)
    requires AllSpaces(tail)
    ensures At(dump + tail, 0, dump) && Stops(dump + tail, |dump|) && SkipSpace(dump + tail, |dump|) == |dump + tail|
  {
    AtWhole(dump, tail);
    var text := dump + tail;
    assert forall i :: |dump| <= i && i < |text| ==> text[i] == tail[i - |dump|];
    SpacesSkipped(text, |dump|);
  }

  /** What comes of a printed value: its rounded form, or nothing if a number of it overflows. */
  lemma {:induction false} ReadsBack(lib: Library, v: Json, dump: Bytes, tail: Bytes)
    requires Known(lib, v) && KeysUnique(v) && Within(v, 0) && dump == Dump(v, lib.fraction)
    requires |dump + tail| <= MaxInput && AllSpaces(tail)
    ensures Readable(lib, v) ==> Parse(lib.scan, dump + tail) == Done(Rounded(lib, v), |dump + tail|)
    ensures !Readable(lib, v) ==> Parse(lib.scan, dump + tail).Failed?
  {
    var text := dump + tail;
    WholeText(dump, tail);
    var r := ParseValue(lib.scan, text, 0, 0);
    if Readable(lib, v) {
      FitsIsGood(lib, v, 0);
      ValueReads(lib, text, 0, v, 0, r);
    } else {
      KnownIsFair(lib, v, 0);
      ValueFails(lib, text, 0, v, 0, r);
    }
  }

  lemma {:induction false} AcceptedWhole(scan: Strtod, text: Bytes)
    requires Parse(scan, text).Done?
    ensures |text| <= MaxInput && KeysUnique(Parse(scan, text).value) && Within(Parse(scan, text).value, 0)
  {
    AcceptedFits(scan, text, 0, 0);
  }

  /** Rounding changes neither keys nor nesting. */
  lemma {:induction false} RoundedShape(lib: Library, v: Json, depth: nat)
    ensures KeysUnique(Rounded(lib, v)) ==> KeysUnique(v)
    ensures Within(Rounded(lib, v), depth) ==> Within(v, depth)
  {
    if v.Array? {
      forall i | 0 <= i < |v.items|
        ensures KeysUnique(Rounded(lib, v)) ==> KeysUnique(v.items[i])
        ensures Within(Rounded(lib, v), depth) ==> Within(v.items[i], depth + 1)
      {
        RoundedItemAt(lib, v.items, i);
        RoundedShape(lib, v.items[i], depth + 1);
      }
    } else if v.Object? {
      forall i | 0 <= i < |v.fields|
        ensures RoundedFields(lib, v.fields)[i].key == v.fields[i].key
        ensures KeysUnique(Rounded(lib, v)) ==> KeysUnique(v.fields[i].value)
        ensures Within(Rounded(lib, v), depth) ==> Within(v.fields[i].value, depth + 1)
      {
        RoundedFieldAt(lib, v.fields, i);
        RoundedShape(lib, v.fields[i].value, depth + 1);
      }
    }
  }

  /** A printed value is read back, rounded as the library rounds, exactly when no number of it overflows, its keys
      are distinct, it is not nested too deep and the text is not too long. */
  lemma {:induction false} RoundTripRounded(lib: Library, v: Json, tail: Bytes)
    requires Known(lib, v) && AllSpaces(tail)
    ensures Parse(lib.scan, Dump(v, lib.fraction) + tail) == Done(Rounded(lib, v), |Dump(v, lib.fraction) + tail|)
      <==> Readable(lib, v) && KeysUnique(v) && Within(v, 0) && |Dump(v, lib.fraction) + tail| <= MaxInput
  {
    var dump := Dump(v, lib.fraction);
    if Parse(lib.scan, dump + tail) == Done(Rounded(lib, v), |dump + tail|) {
      AcceptedWhole(lib.scan, dump + tail);
      RoundedShape(lib, v, 0);
    }
    if KeysUnique(v) && Within(v, 0) && |dump + tail| <= MaxInput {
      ReadsBack(lib, v, dump, tail);
    }
  }

  /** The same printer and scanner, seen as rounding nothing. */
  function Exact(lib: Library): Library { lib.(rounded := (x: real) => x) }

  /** Every number of the value is an integer a double holds exactly, or one the library reads back unchanged. */
  ghost predicate Plain(lib: Library, v: Json) { Readable(Exact(lib), v) }

  lemma {:induction false} PlainUnchanged(lib: Library, v: Json)
    ensures Rounded(Exact(lib), v) == v
    ensures Plain(lib, v) ==> Known(Exact(lib), v)
  {
    if v.Array? {
      forall i | 0 <= i < |v.items|
        ensures RoundedItems(Exact(lib), v.items)[i] == v.items[i]
        ensures Plain(lib, v) ==> Known(Exact(lib), v.items[i])
      {
        RoundedItemAt(Exact(lib), v.items, i);
        PlainUnchanged(lib, v.items[i]);
      }
    } else if v.Object? {
      forall i | 0 <= i < |v.fields|
        ensures RoundedFields(Exact(lib), v.fields)[i] == v.fields[i]
        ensures Plain(lib, v) ==> Known(Exact(lib), v.fields[i].value)
      {
        RoundedFieldAt(Exact(lib), v.fields, i);
        PlainUnchanged(lib, v.fields[i].value);
      }
    }
  }

  /** Such a value, with or without spaces behind its text, is read back exactly when its keys are distinct, it is not
      nested too deep and the text is not too long. */
  lemma {:induction false} RoundTrip(lib: Library, v: Json, tail: Bytes)
    requires Plain(lib, v) && AllSpaces(tail)
    ensures Parse(lib.scan, Dump(v, lib.fraction) + tail) == Done(v, |Dump(v, lib.fraction) + tail|)
      <==> KeysUnique(v) && Within(v, 0) && |Dump(v, lib.fraction) + tail| <= MaxInput
  {
    PlainUnchanged(lib, v);
    RoundTripRounded(Exact(lib), v, tail);
  }

  /** Two such values print alike only if they are the same. */
  lemma {:induction false} DumpInjective(lib: Library, v: Json, w: Json)
    requires Plain(lib, v) && KeysUnique(v) && Within(v, 0)
    requires Plain(lib, w) && KeysUnique(w) && Within(w, 0)
    requires Dump(v, lib.fraction) == Dump(w, lib.fraction) && |Dump(v, lib.fraction)| <= MaxInput
    ensures v == w
  {
    RoundTrip(lib, v, []);
    RoundTrip(lib, w, []);
  }

  /** Reading, printing and reading again changes nothing. */
  lemma {:induction false} ReadAgain(lib: Library, text: Bytes)
    requires Parse(lib.scan, text).Done? && Plain(lib, Parse(lib.scan, text).value)
    requires |Dump(Parse(lib.scan, text).value, lib.fraction)| <= MaxInput
    ensures var v := Parse(lib.scan, text).value;
      Parse(lib.scan, Dump(v, lib.fraction)) == Done(v, |Dump(v, lib.fraction)|)
  {
    AcceptedFits(lib.scan, text, 0, 0);
    var v := Parse(lib.scan, text).value;
    RoundTrip(lib, v, []);
    assert Dump(v, lib.fraction) + [] == Dump(v, lib.fraction);
  }
}
