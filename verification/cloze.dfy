/**
 * Drop-down fields of a cloze question on a worksheet.  Fields whose option
 * lists are identical share one annotation: `processclozequestion` groups
 * the field numbers by option list (`$annotationsarray`, in order of first
 * appearance), and the sort-out routine that follows gives the groups the
 * counters 1, 2, … and rewrites each field's replacement `#i` to the empty
 * field followed by its group's counter.
 */
module ClozeAnnotations {
  import opened Basics
  import opened Decimal
  import opened PhpArrays
  import Strings

  /** A drop-down field: its number `i` and its options joined by `" || "`. */
  datatype DropDown = DropDown(field: nat, options: string)

  /** Option list => field numbers, in insertion order. */
  type Groups = Entries<string, seq<nat>>

  /** The option lists of the fields, in field order. */
  function OptionLists(fields: seq<DropDown>): (r: seq<string>)
    ensures |r| == |fields|
    ensures forall i :: 0 <= i < |r| ==> r[i] == fields[i].options
  {
    if |fields| == 0 then [] else [fields[0].options] + OptionLists(fields[1..])
  }

  lemma OptionListsSnoc(fields: seq<DropDown>)
    requires |fields| > 0
    ensures OptionLists(fields) == OptionLists(fields[..|fields| - 1]) + [fields[|fields| - 1].options]
  {
    var r := OptionLists(fields);
    var q := OptionLists(fields[..|fields| - 1]) + [fields[|fields| - 1].options];
    forall i | 0 <= i < |r| ensures r[i] == q[i] {
      if i < |fields| - 1 {
        assert q[i] == fields[..|fields| - 1][i].options;
      }
    }
  }

  /** The numbers of the fields offering `options`, in field order. */
  function FieldsWith(fields: seq<DropDown>, options: string): seq<nat> {
    if |fields| == 0 then []
    else
      var last := fields[|fields| - 1];
      FieldsWith(fields[..|fields| - 1], options) + (if last.options == options then [last.field] else [])
  }

  /** Position of the first occurrence of `x` in `s`. */
  function FirstPos<T(==)>(s: seq<T>, x: T): (r: nat)
    requires x in s
    ensures r < |s| && s[r] == x
    ensures forall j :: 0 <= j < r ==> s[j] != x
  {
    if s[0] == x then 0 else 1 + FirstPos(s[1..], x)
  }

  /** One more field joins the group of its option list, opening it if new. */
  function AddField(groups: Groups, options: string, field: nat): (r: Groups)
    ensures Keys(r) == if options in Keys(groups) then Keys(groups) else Keys(groups) + [options]
  {
    match Get(groups, options)
    case Some(numbers) => Put(groups, options, numbers + [field])
    case None => Put(groups, options, [field])
  }

  /** `$annotationsarray` after the drop-down fields have been visited in order. */
  function Grouping(fields: seq<DropDown>): Groups {
    if |fields| == 0 then []
    else
      var last := fields[|fields| - 1];
      AddField(Grouping(fields[..|fields| - 1]), last.options, last.field)
  }

  lemma FirstPosUnique<T>(s: seq<T>, x: T, k: nat)
    requires k < |s| && s[k] == x
    requires forall j :: 0 <= j < k ==> s[j] != x
    ensures FirstPos(s, x) == k
  {
  }

  /** Adding a field changes only the group of its option list, by appending the field. */
  lemma AddFieldGet(groups: Groups, options: string, field: nat, x: string)
    ensures Get(AddField(groups, options, field), x)
            == if x == options then Some(Get(groups, options).GetOr([]) + [field]) else Get(groups, x)
  {
    match Get(groups, options)
    case Some(numbers) => GetPut(groups, options, numbers + [field], x);
    case None =>
      assert Get(groups, options).GetOr([]) + [field] == [field];
      GetPut(groups, options, [field], x);
  }

  lemma AddFieldDistinct(groups: Groups, options: string, field: nat)
    requires DistinctKeys(groups)
    ensures DistinctKeys(AddField(groups, options, field))
  {
    match Get(groups, options)
    case Some(numbers) => PutDistinct(groups, options, numbers + [field]);
    case None => PutDistinct(groups, options, [field]);
  }

  /** No option list has two groups. */
  lemma {:induction false} GroupingDistinct(fields: seq<DropDown>)
    ensures DistinctKeys(Grouping(fields))
  {
    if |fields| > 0 {
      var front := fields[..|fields| - 1];
      GroupingDistinct(front);
      AddFieldDistinct(Grouping(front), fields[|fields| - 1].options, fields[|fields| - 1].field);
    }
  }

  /** There is a group for exactly the option lists some field offers. */
  lemma {:induction false} GroupingKeySet(fields: seq<DropDown>)
    ensures forall x :: x in Keys(Grouping(fields)) <==> x in OptionLists(fields)
  {
    if |fields| > 0 {
      var front := fields[..|fields| - 1];
      GroupingKeySet(front);
      OptionListsSnoc(fields);
    }
  }

  /** Every key occurs among the values, and keys come in order of first appearance there. */
  ghost predicate InFirstAppearanceOrder(keys: seq<string>, values: seq<string>) {
    forall i, j :: 0 <= i < j < |keys| ==>
      keys[i] in values && keys[j] in values && FirstPos(values, keys[i]) < FirstPos(values, keys[j])
  }

  /** Groups come in the order in which their option lists first appear. */
  lemma {:induction false} GroupingOrder(fields: seq<DropDown>)
    ensures InFirstAppearanceOrder(Keys(Grouping(fields)), OptionLists(fields))
  {
    if |fields| > 0 {
      var front := fields[..|fields| - 1];
      var last := fields[|fields| - 1];
      GroupingOrder(front);
      GroupingKeySet(front);
      OptionListsSnoc(fields);
      var before := Keys(Grouping(front));
      assert Grouping(fields) == AddField(Grouping(front), last.options, last.field);
      FirstAppearanceStep(before, OptionLists(front), last.options, Keys(Grouping(fields)));
    }
  }

  /**
   * The step of `GroupingOrder`: appending a value to a sequence keeps the
   * first positions of the old values, and a new key, added at the end,
   * first appears after all of them.
   */
  lemma FirstAppearanceStep(keys: seq<string>, values: seq<string>, x: string, after: seq<string>)
    requires forall k :: k in keys <==> k in values
    requires InFirstAppearanceOrder(keys, values)
    requires after == if x in keys then keys else keys + [x]
    ensures InFirstAppearanceOrder(after, values + [x])
  {
    forall k | k in values ensures FirstPos(values + [x], k) == FirstPos(values, k) {
      FirstPosUnique(values + [x], k, FirstPos(values, k));
    }
    if x !in values {
      FirstPosUnique(values + [x], x, |values|);
    }
    forall i, j | 0 <= i < j < |after|
      ensures after[i] in values + [x] && after[j] in values + [x]
              && FirstPos(values + [x], after[i]) < FirstPos(values + [x], after[j])
    {
      assert after[i] == keys[i] && keys[i] in values;
      if j < |keys| {
        assert after[j] == keys[j];
      }
    }
  }

  /** No field offers an option list that no field offers. */
  lemma {:induction false} FieldsWithAbsent(fields: seq<DropDown>, x: string)
    requires x !in OptionLists(fields)
    ensures FieldsWith(fields, x) == []
  {
    if |fields| > 0 {
      var front := fields[..|fields| - 1];
      OptionListsSnoc(fields);
      FieldsWithAbsent(front, x);
    }
  }

  /** The group of an option list holds exactly the fields offering it, in field order. */
  lemma {:induction false} GroupingMembers(fields: seq<DropDown>, x: string)
    ensures Get(Grouping(fields), x) == if x in OptionLists(fields) then Some(FieldsWith(fields, x)) else None
  {
    if |fields| > 0 {
      var front := fields[..|fields| - 1];
      var last := fields[|fields| - 1];
      var before := Grouping(front);
      GroupingMembers(front, x);
      OptionListsSnoc(fields);
      AddFieldGet(before, last.options, last.field, x);
      if x == last.options {
        if x !in OptionLists(front) {
          FieldsWithAbsent(front, x);
        }
        assert FieldsWith(fields, x) == FieldsWith(front, x) + [last.field];
      } else {
        assert FieldsWith(fields, x) == FieldsWith(front, x) + [];
        assert FieldsWith(fields, x) == FieldsWith(front, x);
        assert x in OptionLists(fields) <==> x in OptionLists(front);
        assert Get(Grouping(fields), x) == Get(before, x);
      }
    }
  }

  /** A field listed in a group offers that group's option list. */
  lemma {:induction false} FieldsWithSound(fields: seq<DropDown>, x: string, f: nat)
    requires f in FieldsWith(fields, x)
    ensures exists i :: 0 <= i < |fields| && fields[i].field == f && fields[i].options == x
  {
    var front := fields[..|fields| - 1];
    if f in FieldsWith(front, x) {
      FieldsWithSound(front, x, f);
      var i :| 0 <= i < |front| && front[i].field == f && front[i].options == x;
      assert fields[i] == front[i];
    } else {
      assert fields[|fields| - 1].field == f;
    }
  }

  /** Every field offering an option list is listed in its group. */
  lemma {:induction false} FieldsWithComplete(fields: seq<DropDown>, i: nat)
    requires i < |fields|
    ensures fields[i].field in FieldsWith(fields, fields[i].options)
  {
    var front := fields[..|fields| - 1];
    if i < |front| {
      FieldsWithComplete(front, i);
      assert front[i] == fields[i];
    }
  }

  /** `"#$i"`, the replacement key of field `i`. */
  function FieldKey(f: nat): string {
    "#" + NatToString(f)
  }

  /** The annotation mark after a field of the group with the given counter. */
  function Marker(counter: nat): string {
    "&#160;<sup>*" + NatToString(counter) + "</sup>\n"
  }

  /** `$fieldsarray[$i]`; a field that was never stored reads as the empty string. */
  function FieldText(fieldsArray: Entries<nat, string>, f: nat): string {
    Get(fieldsArray, f).GetOr("")
  }

  lemma FieldKeyInjective(a: nat, b: nat)
    requires FieldKey(a) == FieldKey(b)
    ensures a == b
  {
    assert FieldKey(a)[1..] == NatToString(a);
    assert FieldKey(b)[1..] == NatToString(b);
    NatToStringInjective(a, b);
  }

  /** The inner loop of the sort-out routine: every field of one group gets the counter. */
  function MarkFields(replace: Entries<string, string>, fieldsArray: Entries<nat, string>,
                      fields: seq<nat>, counter: nat): Entries<string, string>
    decreases |fields|
  {
    if |fields| == 0 then replace
    else
      var f := fields[0];
      MarkFields(Put(replace, FieldKey(f), FieldText(fieldsArray, f) + Marker(counter)),
                 fieldsArray, fields[1..], counter)
  }

  /** The sort-out routine: groups in order, counters from `counter` upwards. */
  function SortOut(replace: Entries<string, string>, fieldsArray: Entries<nat, string>,
                   groups: Groups, counter: nat): Entries<string, string>
    decreases |groups|
  {
    if |groups| == 0 then replace
    else SortOut(MarkFields(replace, fieldsArray, groups[0].1, counter), fieldsArray, groups[1..], counter + 1)
  }

  /** Keys that belong to none of the group's fields keep their replacement. */
  lemma {:induction false} MarkFieldsMiss(replace: Entries<string, string>, fieldsArray: Entries<nat, string>,
                                          fields: seq<nat>, counter: nat, k: string)
    requires forall f :: f in fields ==> FieldKey(f) != k
    ensures Get(MarkFields(replace, fieldsArray, fields, counter), k) == Get(replace, k)
    decreases |fields|
  {
    if |fields| > 0 {
      var f := fields[0];
      var v := FieldText(fieldsArray, f) + Marker(counter);
      GetPut(replace, FieldKey(f), v, k);
      MarkFieldsMiss(Put(replace, FieldKey(f), v), fieldsArray, fields[1..], counter, k);
    }
  }

  /** Every field of the group maps to its stored field plus the group's counter. */
  lemma {:induction false} MarkFieldsHit(replace: Entries<string, string>, fieldsArray: Entries<nat, string>,
                                         fields: seq<nat>, counter: nat, f: nat)
    requires f in fields
    ensures Get(MarkFields(replace, fieldsArray, fields, counter), FieldKey(f))
            == Some(FieldText(fieldsArray, f) + Marker(counter))
    decreases |fields|
  {
    var g := fields[0];
    var v := FieldText(fieldsArray, g) + Marker(counter);
    var next := Put(replace, FieldKey(g), v);
    if f in fields[1..] {
      MarkFieldsHit(next, fieldsArray, fields[1..], counter, f);
    } else {
      forall h | h in fields[1..] ensures FieldKey(h) != FieldKey(f) {
        if FieldKey(h) == FieldKey(f) {
          FieldKeyInjective(h, f);
        }
      }
      GetPut(replace, FieldKey(g), v, FieldKey(f));
      MarkFieldsMiss(next, fieldsArray, fields[1..], counter, FieldKey(f));
    }
  }

  /** Keys that belong to no grouped field keep their replacement through the sort-out. */
  lemma {:induction false} SortOutMiss(replace: Entries<string, string>, fieldsArray: Entries<nat, string>,
                                       groups: Groups, counter: nat, k: string)
    requires forall g, f :: 0 <= g < |groups| && f in groups[g].1 ==> FieldKey(f) != k
    ensures Get(SortOut(replace, fieldsArray, groups, counter), k) == Get(replace, k)
    decreases |groups|
  {
    if |groups| > 0 {
      MarkFieldsMiss(replace, fieldsArray, groups[0].1, counter, k);
      forall g, f | 0 <= g < |groups[1..]| && f in groups[1..][g].1 ensures FieldKey(f) != k {
        assert groups[1..][g] == groups[g + 1];
      }
      SortOutMiss(MarkFields(replace, fieldsArray, groups[0].1, counter), fieldsArray, groups[1..], counter + 1, k);
    }
  }

  /**
   * A field of group `g` that no later group repeats ends up as its stored
   * field followed by the counter `counter + g`.
   */
  lemma {:induction false} SortOutHit(replace: Entries<string, string>, fieldsArray: Entries<nat, string>,
                                      groups: Groups, counter: nat, g: nat, f: nat)
    requires g < |groups| && f in groups[g].1
    requires forall h :: g < h < |groups| ==> f !in groups[h].1
    ensures Get(SortOut(replace, fieldsArray, groups, counter), FieldKey(f))
            == Some(FieldText(fieldsArray, f) + Marker(counter + g))
    decreases |groups|, 1
  {
    if g > 0 {
      SortOutHitLater(replace, fieldsArray, groups, counter, g, f);
    } else {
      SortOutHitFirst(replace, fieldsArray, groups, counter, f);
    }
  }

  /** A field of a later group is marked by the rest of the sort-out. */
  lemma {:induction false} SortOutHitLater(replace: Entries<string, string>, fieldsArray: Entries<nat, string>,
                                           groups: Groups, counter: nat, g: nat, f: nat)
    requires 0 < g < |groups| && f in groups[g].1
    requires forall h :: g < h < |groups| ==> f !in groups[h].1
    ensures Get(SortOut(replace, fieldsArray, groups, counter), FieldKey(f))
            == Some(FieldText(fieldsArray, f) + Marker(counter + g))
    decreases |groups|, 0
  {
    var next := MarkFields(replace, fieldsArray, groups[0].1, counter);
    var rest := groups[1..];
    assert rest[g - 1] == groups[g];
    forall h | g - 1 < h < |rest| ensures f !in rest[h].1 {
      assert rest[h] == groups[h + 1];
    }
    assert Marker((counter + 1) + (g - 1)) == Marker(counter + g);
    SortOutHit(next, fieldsArray, rest, counter + 1, g - 1, f);
    SortOutStep(replace, fieldsArray, groups, counter);
  }

  lemma SortOutStep(replace: Entries<string, string>, fieldsArray: Entries<nat, string>,
                    groups: Groups, counter: nat)
    requires |groups| > 0
    ensures SortOut(replace, fieldsArray, groups, counter)
            == SortOut(MarkFields(replace, fieldsArray, groups[0].1, counter), fieldsArray, groups[1..], counter + 1)
  {
  }

  /** A field of the first group is marked now and no later group touches it. */
  lemma {:induction false} SortOutHitFirst(replace: Entries<string, string>, fieldsArray: Entries<nat, string>,
                                           groups: Groups, counter: nat, f: nat)
    requires 0 < |groups| && f in groups[0].1
    requires forall h :: 0 < h < |groups| ==> f !in groups[h].1
    ensures Get(SortOut(replace, fieldsArray, groups, counter), FieldKey(f))
            == Some(FieldText(fieldsArray, f) + Marker(counter))
  {
    var next := MarkFields(replace, fieldsArray, groups[0].1, counter);
    var rest := groups[1..];
    MarkFieldsHit(replace, fieldsArray, groups[0].1, counter, f);
    forall h, e | 0 <= h < |rest| && e in rest[h].1 ensures FieldKey(e) != FieldKey(f) {
      assert rest[h] == groups[h + 1];
      if FieldKey(e) == FieldKey(f) {
        FieldKeyInjective(e, f);
      }
    }
    SortOutMiss(next, fieldsArray, rest, counter + 1, FieldKey(f));
  }

  /** Field numbers are the running index `$i`, so no two fields share one. */
  ghost predicate DistinctFields(fields: seq<DropDown>) {
    forall i, j :: 0 <= i < j < |fields| ==> fields[i].field != fields[j].field
  }

  /**
   * A field sits in the group of its own option list and in no other: with
   * distinct field numbers, a field in group `h` offers group `h`'s list.
   */
  lemma FieldInOneGroup(fields: seq<DropDown>, i: nat, h: nat)
    requires DistinctFields(fields)
    requires i < |fields| && h < |Grouping(fields)|
    requires fields[i].field in Grouping(fields)[h].1
    ensures Grouping(fields)[h].0 == fields[i].options
  {
    var groups := Grouping(fields);
    var x := groups[h].0;
    GroupingDistinct(fields);
    GroupingKeySet(fields);
    assert x == Keys(groups)[h];
    GroupingMembers(fields, x);
    GetOfDistinct(groups, h);
    FieldsWithSound(fields, x, fields[i].field);
    var j :| 0 <= j < |fields| && fields[j].field == fields[i].field && fields[j].options == x;
    assert j == i;
  }

  /**
   * After grouping and sorting out, the replacement of every drop-down field
   * is its stored field followed by the counter of its option list, where
   * the option lists are counted 1, 2, … in order of first appearance.
   */
  lemma ClozeFieldAnnotation(fields: seq<DropDown>, fieldsArray: Entries<nat, string>,
                             replace: Entries<string, string>, i: nat, g: nat)
    requires DistinctFields(fields)
    requires i < |fields|
    requires g < |Grouping(fields)| && Keys(Grouping(fields))[g] == fields[i].options
    ensures Get(SortOut(replace, fieldsArray, Grouping(fields), 1), FieldKey(fields[i].field))
            == Some(FieldText(fieldsArray, fields[i].field) + Marker(g + 1))
  {
    FieldInOwnGroup(fields, i, g);
    NotInLaterGroups(fields, i, g);
    SortOutHit(replace, fieldsArray, Grouping(fields), 1, g, fields[i].field);
  }

  /** No group after the field's own lists the field again. */
  lemma NotInLaterGroups(fields: seq<DropDown>, i: nat, g: nat)
    requires DistinctFields(fields)
    requires i < |fields|
    requires g < |Grouping(fields)| && Grouping(fields)[g].0 == fields[i].options
    ensures forall h :: g < h < |Grouping(fields)| ==> fields[i].field !in Grouping(fields)[h].1
  {
    forall h | g < h < |Grouping(fields)| ensures fields[i].field !in Grouping(fields)[h].1 {
      if fields[i].field in Grouping(fields)[h].1 {
        FieldInOneGroup(fields, i, h);
        GroupKeysDiffer(fields, g, h);
      }
    }
  }

  /** A field is listed in the group of its own option list. */
  lemma FieldInOwnGroup(fields: seq<DropDown>, i: nat, g: nat)
    requires i < |fields|
    requires g < |Grouping(fields)| && Keys(Grouping(fields))[g] == fields[i].options
    ensures fields[i].field in Grouping(fields)[g].1
  {
    var groups := Grouping(fields);
    GroupingDistinct(fields);
    assert OptionLists(fields)[i] == fields[i].options;
    GroupingMembers(fields, fields[i].options);
    FieldsWithComplete(fields, i);
    GetOfDistinct(groups, g);
  }

  /** Two different groups have different option lists. */
  lemma GroupKeysDiffer(fields: seq<DropDown>, g: nat, h: nat)
    requires g < h < |Grouping(fields)|
    ensures Grouping(fields)[g].0 != Grouping(fields)[h].0
  {
    GroupingDistinct(fields);
    assert Keys(Grouping(fields))[g] == Grouping(fields)[g].0;
    assert Keys(Grouping(fields))[h] == Grouping(fields)[h].0;
  }

  /** In an array with distinct keys, looking up an entry's key finds that entry. */
  lemma GetOfDistinct<V>(a: Entries<string, V>, i: nat)
    requires DistinctKeys(a) && i < |a|
    ensures Get(a, a[i].0) == Some(a[i].1)
  {
    if i > 0 && a[0].0 != a[i].0 {
      assert a[1..][i - 1] == a[i];
      GetOfDistinct(a[1..], i - 1);
    }
  }

  /** One line of the annotation: the counter, the word for options, and the options. */
  function AnnotationLine(counter: nat, optionsWord: string, options: string): string {
    "<sup>*" + NatToString(counter) + "</sup>&#160;" + optionsWord + ": " + options + "<br />\n"
  }

  /**
   * Lines written one per item, numbered from `counter`: `line(k, x)` is
   * the text for item `x` under number `k`.
   */
  function Numbered<T>(items: seq<T>, line: (nat, T) -> string, counter: nat): (r: string)
    ensures |items| == 0 ==> r == ""
    decreases |items|
  {
    if |items| == 0 then "" else line(counter, items[0]) + Numbered(items[1..], line, counter + 1)
  }

  /**
   * The `g`-th item's line carries the number `counter + g` and sits
   * between the lines of the items before it and those after it.
   */
  lemma {:induction false} NumberedSplit<T>(items: seq<T>, line: (nat, T) -> string, counter: nat, g: nat)
    requires g < |items|
    ensures Numbered(items, line, counter)
            == Numbered(items[..g], line, counter) + line(counter + g, items[g])
               + Numbered(items[g + 1..], line, counter + g + 1)
    decreases g
  {
    if g == 0 {
      assert items[0 + 1..] == items[1..];
    } else {
      var tail, front := items[1..], items[..g];
      NumberedSplit(tail, line, counter + 1, g - 1);
      assert tail[g - 1] == items[g] && tail[g - 1 + 1..] == items[g + 1..];
      assert front[0] == items[0] && front[1..] == tail[..g - 1];
      Regroup(Numbered(items, line, counter), line(counter, items[0]),
              Numbered(tail, line, counter + 1), Numbered(tail[..g - 1], line, counter + 1),
              line(counter + g, items[g]), Numbered(items[g + 1..], line, counter + g + 1),
              Numbered(front, line, counter));
    }
  }

  lemma Regroup(whole: string, first: string, tail: string, middle: string, line: string, rest: string,
                front: string)
    requires whole == first + tail && tail == middle + line + rest && front == first + middle
    ensures whole == front + line + rest
  {
  }

  /** The separator between a drop-down's options. */
  const OptionSeparator := " || "

  /**
   * A group's options as its annotation line lists them: exploded at the
   * separator, put in the order the host's `shuffle` gives, and imploded.
   */
  function Arranged(options: string, shuffle: seq<string> -> seq<string>): string {
    Strings.Join(shuffle(Strings.Explode(options, OptionSeparator)), OptionSeparator)
  }

  /**
   * `$annotation` built by the sort-out loop over `groups`, numbering from
   * `counter`; `shuffle` is the host's `shuffle` of a group's options.
   */
  function Annotation(groups: Groups, optionsWord: string, shuffle: seq<string> -> seq<string>, counter: nat): string {
    Numbered(groups, (k: nat, group: (string, seq<nat>)) => AnnotationLine(k, optionsWord, Arranged(group.0, shuffle)),
             counter)
  }

  /** The annotation the routine leaves: reset to "" and then one line per group from counter 1. */
  function ClozeAnnotation(fields: seq<DropDown>, optionsWord: string, shuffle: seq<string> -> seq<string>): string {
    Annotation(Grouping(fields), optionsWord, shuffle, 1)
  }

  /** The `g`-th group's line, numbered `counter + g`, between the groups before and after it. */
  lemma AnnotationSplit(groups: Groups, optionsWord: string, shuffle: seq<string> -> seq<string>, counter: nat, g: nat)
    requires g < |groups|
    ensures Annotation(groups, optionsWord, shuffle, counter)
            == Annotation(groups[..g], optionsWord, shuffle, counter)
               + AnnotationLine(counter + g, optionsWord, Arranged(groups[g].0, shuffle))
               + Annotation(groups[g + 1..], optionsWord, shuffle, counter + g + 1)
  {
    NumberedSplit(groups, (k: nat, group: (string, seq<nat>)) => AnnotationLine(k, optionsWord, Arranged(group.0, shuffle)),
                  counter, g);
  }

  /**
   * The annotation and the field marks agree: a drop-down marked `*g+1`
   * finds, on the annotation's `g+1`-th line, its own options, exploded at
   * the separator and listed in some order of the host's shuffle.
   */
  lemma AnnotationLineOfField(fields: seq<DropDown>, fieldsArray: Entries<nat, string>,
                              replace: Entries<string, string>, optionsWord: string,
                              shuffle: seq<string> -> seq<string>, i: nat, g: nat)
    requires DistinctFields(fields)
    requires Strings.IsShuffle(shuffle)
    requires i < |fields|
    requires g < |Grouping(fields)| && Keys(Grouping(fields))[g] == fields[i].options
    ensures Get(SortOut(replace, fieldsArray, Grouping(fields), 1), FieldKey(fields[i].field))
            == Some(FieldText(fieldsArray, fields[i].field) + Marker(g + 1))
    ensures var pieces := Strings.Explode(fields[i].options, OptionSeparator);
            && ClozeAnnotation(fields, optionsWord, shuffle)
               == Annotation(Grouping(fields)[..g], optionsWord, shuffle, 1)
                  + AnnotationLine(g + 1, optionsWord, Strings.Join(shuffle(pieces), OptionSeparator))
                  + Annotation(Grouping(fields)[g + 1..], optionsWord, shuffle, g + 2)
            && multiset(shuffle(pieces)) == multiset(pieces)
  {
    ClozeFieldAnnotation(fields, fieldsArray, replace, i, g);
    AnnotationSplit(Grouping(fields), optionsWord, shuffle, 1, g);
    assert Grouping(fields)[g].0 == fields[i].options;
  }

  /**
   * When the shuffle keeps the order, the line of a drop-down's group lists
   * exactly its option text: exploding and imploding give it back.
   */
  lemma UnshuffledLineOfField(fields: seq<DropDown>, optionsWord: string, i: nat, g: nat)
    requires i < |fields|
    requires g < |Grouping(fields)| && Keys(Grouping(fields))[g] == fields[i].options
    ensures ClozeAnnotation(fields, optionsWord, (x: seq<string>) => x)
            == Annotation(Grouping(fields)[..g], optionsWord, (x: seq<string>) => x, 1)
               + AnnotationLine(g + 1, optionsWord, fields[i].options)
               + Annotation(Grouping(fields)[g + 1..], optionsWord, (x: seq<string>) => x, g + 2)
  {
    AnnotationSplit(Grouping(fields), optionsWord, (x: seq<string>) => x, 1, g);
    assert Grouping(fields)[g].0 == fields[i].options;
    Strings.ImplodeExplode(fields[i].options, OptionSeparator);
  }
}
