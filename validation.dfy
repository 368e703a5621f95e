/**
 * FluentValidation's failure list, and the grouping both command handlers apply
 * to it: `Errors.GroupBy(e => e.PropertyName).ToDictionary(g => g.Key,
 * g => g.Select(e => e.ErrorMessage).ToArray())`.
 */
module Validation {
  import opened Results

  /** `ValidationFailure`: the failing property and its message. */
  datatype ValidationFailure = ValidationFailure(propertyName: string, errorMessage: string)

  /** The validator reported this message for this property. */
  ghost predicate Reports(fs: seq<ValidationFailure>, property: string, message: string) {
    exists i :: 0 <= i < |fs| && fs[i] == ValidationFailure(property, message)
  }

  /** Some failure concerns this property. */
  ghost predicate Mentions(fs: seq<ValidationFailure>, property: string) {
    exists i :: 0 <= i < |fs| && fs[i].propertyName == property
  }

  lemma ReportsAppend(a: seq<ValidationFailure>, b: seq<ValidationFailure>, property: string, message: string)
    ensures Reports(a + b, property, message) <==> Reports(a, property, message) || Reports(b, property, message)
  {
    var f := ValidationFailure(property, message);
    if Reports(a + b, property, message) {
      var i :| 0 <= i < |a + b| && (a + b)[i] == f;
      if i < |a| { assert a[i] == f; } else { assert b[i - |a|] == f; }
    }
    if Reports(a, property, message) {
      var i :| 0 <= i < |a| && a[i] == f;
      assert (a + b)[i] == f;
    }
    if Reports(b, property, message) {
      var i :| 0 <= i < |b| && b[i] == f;
      assert (a + b)[|a| + i] == f;
    }
  }

  lemma MentionsAppend(a: seq<ValidationFailure>, b: seq<ValidationFailure>, property: string)
    ensures Mentions(a + b, property) <==> Mentions(a, property) || Mentions(b, property)
  {
    if Mentions(a + b, property) {
      var i :| 0 <= i < |a + b| && (a + b)[i].propertyName == property;
      if i < |a| { assert a[i].propertyName == property; } else { assert b[i - |a|].propertyName == property; }
    }
    if Mentions(a, property) {
      var i :| 0 <= i < |a| && a[i].propertyName == property;
      assert (a + b)[i].propertyName == property;
    }
    if Mentions(b, property) {
      var i :| 0 <= i < |b| && b[i].propertyName == property;
      assert (a + b)[|a| + i].propertyName == property;
    }
  }

  /** One rule's outcome: its failure when it fails, nothing otherwise. */
  function Check(failed: bool, property: string, message: string): (fs: seq<ValidationFailure>)
    ensures |fs| <= 1
    ensures fs == [] <==> !failed
  {
    if failed then [ValidationFailure(property, message)] else []
  }

  lemma CheckFacts(failed: bool, property: string, message: string)
    ensures forall p, m :: Reports(Check(failed, property, message), p, m) <==> failed && p == property && m == message
    ensures forall p :: Mentions(Check(failed, property, message), p) <==> failed && p == property
  {
    if failed {
      assert Check(failed, property, message)[0] == ValidationFailure(property, message);
    }
  }

  /** `ReportsAppend` and `MentionsAppend` for every property and message at once. */
  lemma Concat(a: seq<ValidationFailure>, b: seq<ValidationFailure>)
    ensures forall p, m :: Reports(a + b, p, m) <==> Reports(a, p, m) || Reports(b, p, m)
    ensures forall p :: Mentions(a + b, p) <==> Mentions(a, p) || Mentions(b, p)
  {
    forall p, m ensures Reports(a + b, p, m) <==> Reports(a, p, m) || Reports(b, p, m) {
      ReportsAppend(a, b, p, m);
    }
    forall p ensures Mentions(a + b, p) <==> Mentions(a, p) || Mentions(b, p) {
      MentionsAppend(a, b, p);
    }
  }

  /** The messages of the failures for one property, in the order reported. */
  function MessagesFor(fs: seq<ValidationFailure>, property: string): seq<string> {
    if fs == [] then []
    else if fs[0].propertyName == property then [fs[0].errorMessage] + MessagesFor(fs[1..], property)
    else MessagesFor(fs[1..], property)
  }

  lemma {:induction false} MessagesForEmpty(fs: seq<ValidationFailure>, property: string)
    ensures MessagesFor(fs, property) == [] <==> !Mentions(fs, property)
  {
    if fs != [] {
      MessagesForEmpty(fs[1..], property);
      if Mentions(fs[1..], property) {
        var i :| 0 <= i < |fs[1..]| && fs[1..][i].propertyName == property;
        assert fs[i + 1].propertyName == property;
      }
      if Mentions(fs, property) && fs[0].propertyName != property {
        var i :| 0 <= i < |fs| && fs[i].propertyName == property;
        assert fs[1..][i - 1].propertyName == property;
      }
    }
  }

  /** The messages of two failure lists, one after the other. */
  lemma {:induction false} MessagesForConcat(a: seq<ValidationFailure>, b: seq<ValidationFailure>, property: string)
    ensures MessagesFor(a + b, property) == MessagesFor(a, property) + MessagesFor(b, property)
  {
    if a == [] {
      assert a + b == b;
    } else {
      assert (a + b)[0] == a[0] && (a + b)[1..] == a[1..] + b;
      MessagesForConcat(a[1..], b, property);
    }
  }

  lemma MessagesForCheck(failed: bool, property: string, message: string, p: string)
    ensures MessagesFor(Check(failed, property, message), p) == if failed && p == property then [message] else []
  {
    if failed {
      assert Check(failed, property, message)[1..] == [];
    }
  }

  lemma {:induction false} MessagesForAppend(fs: seq<ValidationFailure>, f: ValidationFailure, property: string)
    ensures MessagesFor(fs + [f], property)
         == MessagesFor(fs, property) + (if f.propertyName == property then [f.errorMessage] else [])
  {
    if fs != [] {
      assert (fs + [f])[1..] == fs[1..] + [f];
      MessagesForAppend(fs[1..], f, property);
    }
  }

  /** The keys and values the grouping must have for `fs`. */
  ghost predicate GroupsOf(m: ErrorMap, fs: seq<ValidationFailure>) {
    && (forall p :: p in m <==> Mentions(fs, p))
    && (forall p :: p in m ==> m[p] == MessagesFor(fs, p))
  }

  /** Adds one failure to the grouping built so far. */
  function AddFailure(m: ErrorMap, f: ValidationFailure): ErrorMap {
    m[f.propertyName := (if f.propertyName in m then m[f.propertyName] else []) + [f.errorMessage]]
  }

  lemma AddFailureKeys(m0: ErrorMap, init: seq<ValidationFailure>, f: ValidationFailure)
    requires forall p :: p in m0 <==> Mentions(init, p)
    ensures forall p :: p in AddFailure(m0, f) <==> Mentions(init + [f], p)
  {
    var fs := init + [f];
    forall p ensures p in AddFailure(m0, f) <==> Mentions(fs, p) {
      if Mentions(fs, p) && p != f.propertyName {
        var i :| 0 <= i < |fs| && fs[i].propertyName == p;
        assert init[i].propertyName == p;
      }
      if Mentions(init, p) {
        var i :| 0 <= i < |init| && init[i].propertyName == p;
        assert fs[i].propertyName == p;
      }
      assert fs[|init|] == f;
    }
  }

  lemma AddFailureValues(m0: ErrorMap, init: seq<ValidationFailure>, f: ValidationFailure)
    requires GroupsOf(m0, init)
    ensures forall p :: p in AddFailure(m0, f) ==> AddFailure(m0, f)[p] == MessagesFor(init + [f], p)
  {
    var m := AddFailure(m0, f);
    forall p | p in m ensures m[p] == MessagesFor(init + [f], p) {
      MessagesForAppend(init, f, p);
      if p == f.propertyName && p !in m0 {
        MessagesForEmpty(init, p);
      }
    }
  }

  /** The grouping, one failure at a time in the order reported, as LINQ builds it.
      Its keys are exactly the failing properties; under each key stand that
      property's messages, in order, and there is at least one. */
  function GroupByProperty(fs: seq<ValidationFailure>): (m: ErrorMap)
    ensures GroupsOf(m, fs)
    ensures forall p :: p in m ==> m[p] != []
  {
    if fs == [] then map[]
    else
      var init := fs[..|fs| - 1];
      var f := fs[|fs| - 1];
      assert fs == init + [f];
      var m0 := GroupByProperty(init);
      AddFailureKeys(m0, init, f);
      AddFailureValues(m0, init, f);
      var m := AddFailure(m0, f);
      assert forall p :: p in m ==> m[p] != [] by {
        forall p | p in m ensures m[p] != [] { MessagesForEmpty(fs, p); }
      }
      m
  }

  /** A failing validation always yields a non-empty map. */
  lemma GroupByPropertyNonEmpty(fs: seq<ValidationFailure>)
    requires fs != []
    ensures GroupByProperty(fs) != map[]
  {
    assert fs[0].propertyName in GroupByProperty(fs);
  }
}
