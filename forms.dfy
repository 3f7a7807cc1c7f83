/**
 * Form handling: validateField, the submit, blur and input listeners that
 * initFormHandling attaches to every form, and showFormSuccess.
 *
 * A field is a record of what the listeners read and write: its value and
 * default value, the `required` attribute, its `type`, its inline border
 * colour (an arbitrary string, exactly as `style.borderColor` is compared
 * by the source), and the id of its parent container.  Error-message nodes
 * are found with `field.parentNode.querySelector('.error-message')`, so they
 * belong to containers, not to fields: `errors` maps a container id to the
 * texts of the error-message nodes it holds, in document order.
 */
module Forms {
  import opened Text
  import opened Email
  import opened Announce

  type ContainerId = nat

  const Red := "#FF0000"
  const RequiredMessage := "This field is required"
  const ThanksMessage := "Thank you! Your message has been sent successfully."
  const SubmittedAnnouncement := "Form submitted successfully"
  const FixErrorsAnnouncement := "Please fix the form errors before submitting"
  /** Delay, in ms, after which a success banner removes itself. */
  const BannerLifetime := 5000

  datatype Field = Field(value: string, defaultValue: string, required: bool,
                         kind: string, border: string, parent: ContainerId)

  /** A success banner and the virtual time at which its timer removes it. */
  datatype Banner = Banner(text: string, removeAt: int)

  type Errors = map<ContainerId, seq<string>>

  // ---------------------------------------------------------------------
  // validateField

  /** The verdict of validateField: a required field must not be blank, and
      a non-blank email field must have the shape `local@host.tld`. */
  function ValidateField(f: Field): (ok: bool)
    ensures ok <==> !(f.required && Blank(f.value)) &&
                    !(f.kind == "email" && !Blank(f.value) && !EmailShaped(Trim(f.value)))
  {
    if f.required && Blank(f.value) then false
    else if f.kind == "email" && !Blank(f.value) then EmailTest(Trim(f.value))
    else true
  }

  // ---------------------------------------------------------------------
  // The submit listener's loop, as functions of the fields in document order

  /** The field does not make `isValid` false. */
  predicate Passes(f: Field)
  {
    !f.required || !Blank(f.value)
  }

  /** `isValid` after the loop has visited `fs`. */
  function RequiredFilled(fs: seq<Field>): bool
  {
    if fs == [] then true
    else RequiredFilled(fs[..|fs| - 1]) && Passes(fs[|fs| - 1])
  }

  /** The error-message texts held by container `c`. */
  function Messages(errs: Errors, c: ContainerId): seq<string>
  {
    if c in errs then errs[c] else []
  }

  /** What one visit of the loop does to the error messages: a blank required
      field makes the first message of its container read "This field is
      required", creating it when there is none; a filled required field
      removes the first message of its container, if any. */
  function CheckRequired(errs: Errors, f: Field): Errors
  {
    if !f.required then errs
    else
      var m := Messages(errs, f.parent);
      if Blank(f.value) then errs[f.parent := [RequiredMessage] + (if m == [] then [] else m[1..])]
      else if m == [] then errs
      else errs[f.parent := m[1..]]
  }

  /** The error messages after the loop has visited `fs`. */
  function ErrorsAfter(errs: Errors, fs: seq<Field>): Errors
  {
    if fs == [] then errs
    else CheckRequired(ErrorsAfter(errs, fs[..|fs| - 1]), fs[|fs| - 1])
  }

  /** Whether `f` is a required field of container `c`. */
  predicate RequiredIn(f: Field, c: ContainerId)
  {
    f.required && f.parent == c
  }

  /** The position of the last required field of container `c`, or -1. */
  function LastRequiredIn(fs: seq<Field>, c: ContainerId): (k: int)
    ensures -1 <= k < |fs|
    ensures k >= 0 ==> RequiredIn(fs[k], c)
    ensures forall m :: k < m < |fs| ==> !RequiredIn(fs[m], c)
  {
    if fs == [] then -1
    else if RequiredIn(fs[|fs| - 1], c) then |fs| - 1
    else LastRequiredIn(fs[..|fs| - 1], c)
  }

  /** How a field looks after the loop has visited it. */
  function Marked(f: Field): Field
  {
    if f.required then f.(border := if Blank(f.value) then Red else "") else f
  }

  /** One more field visited: the folds take one more step. */
  lemma FoldStep(errs: Errors, fs: seq<Field>, i: nat)
    requires i < |fs|
    ensures RequiredFilled(fs[..i + 1]) == (RequiredFilled(fs[..i]) && Passes(fs[i]))
    ensures ErrorsAfter(errs, fs[..i + 1]) == CheckRequired(ErrorsAfter(errs, fs[..i]), fs[i])
  {
    assert fs[..i + 1][..i] == fs[..i];
  }

  // ---------------------------------------------------------------------
  // What the loop promises

  /** The submission succeeds exactly when every required field holds a
      non-blank value. */
  lemma {:induction false} RequiredFilledIff(fs: seq<Field>)
    ensures RequiredFilled(fs) <==> forall k :: 0 <= k < |fs| && fs[k].required ==> !Blank(fs[k].value)
  {
    if fs != [] {
      var init := fs[..|fs| - 1];
      RequiredFilledIff(init);
      assert forall k :: 0 <= k < |init| ==> init[k] == fs[k];
    }
  }

  /** Replacing an optional field by another optional field changes neither
      the outcome nor any error message. */
  lemma {:induction false} OptionalFieldIgnored(errs: Errors, fs: seq<Field>, k: nat, g: Field)
    requires k < |fs| && !fs[k].required && !g.required
    ensures RequiredFilled(fs[k := g]) == RequiredFilled(fs)
    ensures ErrorsAfter(errs, fs[k := g]) == ErrorsAfter(errs, fs)
  {
    var gs := fs[k := g];
    var n := |fs|;
    if k < n - 1 {
      assert gs[..n - 1] == fs[..n - 1][k := g];
      OptionalFieldIgnored(errs, fs[..n - 1], k, g);
    } else {
      assert gs[..n - 1] == fs[..n - 1];
    }
  }

  /** The loop leaves every container with at most one error message when it
      held at most one before; the message is then the required-field text
      exactly when the last required field of that container, in document
      order, is blank, and containers without a required field keep their
      messages. */
  lemma {:induction false} ContainerOutcome(errs: Errors, fs: seq<Field>, c: ContainerId)
    requires |Messages(errs, c)| <= 1
    ensures Messages(ErrorsAfter(errs, fs), c) ==
            var k := LastRequiredIn(fs, c);
            if k < 0 then Messages(errs, c)
            else if Blank(fs[k].value) then [RequiredMessage]
            else []
  {
    if fs != [] {
      var init, f := fs[..|fs| - 1], fs[|fs| - 1];
      ContainerOutcome(errs, init, c);
      var before := ErrorsAfter(errs, init);
      assert ErrorsAfter(errs, fs) == CheckRequired(before, f);
      if RequiredIn(f, c) {
        assert LastRequiredIn(fs, c) == |fs| - 1;
        assert |Messages(before, c)| <= 1;
      } else {
        var k := LastRequiredIn(init, c);
        assert LastRequiredIn(fs, c) == k;
        assert k >= 0 ==> fs[k] == init[k];
        assert Messages(CheckRequired(before, f), c) == Messages(before, c);
      }
    }
  }

  lemma AtMostOneMessageKept(errs: Errors, fs: seq<Field>, c: ContainerId)
    requires |Messages(errs, c)| <= 1
    ensures |Messages(ErrorsAfter(errs, fs), c)| <= 1
  {
    ContainerOutcome(errs, fs, c);
  }

  /** Submitting the same values again leaves the same error messages: no
      duplicate is ever created. */
  lemma ResubmitChangesNoMessage(errs: Errors, fs: seq<Field>, c: ContainerId)
    requires |Messages(errs, c)| <= 1
    ensures Messages(ErrorsAfter(ErrorsAfter(errs, fs), fs), c) == Messages(ErrorsAfter(errs, fs), c)
  {
    ContainerOutcome(errs, fs, c);
    ContainerOutcome(ErrorsAfter(errs, fs), fs, c);
  }

  /** Messages are kept per container, so order matters: with two required
      fields sharing a container, a blank one followed by a filled one leaves
      no message although the submission fails, while the other order leaves
      the message in place. */
  lemma SharedContainerLastFieldWins(errs: Errors, blank: Field, filled: Field)
    requires blank.required && filled.required && blank.parent == filled.parent
    requires Blank(blank.value) && !Blank(filled.value)
    requires |Messages(errs, blank.parent)| <= 1
    ensures !RequiredFilled([blank, filled]) && !RequiredFilled([filled, blank])
    ensures Messages(ErrorsAfter(errs, [blank, filled]), blank.parent) == []
    ensures Messages(ErrorsAfter(errs, [filled, blank]), blank.parent) == [RequiredMessage]
  {
    assert [blank, filled][..1] == [blank] && [filled, blank][..1] == [filled];
    assert [blank][..0] == [] && [filled][..0] == [];
    ContainerOutcome(errs, [blank, filled], blank.parent);
    ContainerOutcome(errs, [filled, blank], blank.parent);
  }

  /** The submit listener checks only that required fields are filled: a
      required email field holding a non-blank value of the wrong shape lets
      the submission through, although validateField rejects it. */
  lemma SubmitSkipsEmailShape(f: Field)
    requires f.required && f.kind == "email" && !Blank(f.value) && !EmailShaped(Trim(f.value))
    ensures RequiredFilled([f]) && !ValidateField(f)
  {
    assert [f][..0] == [];
  }

  // ---------------------------------------------------------------------
  // Success banners and their 5000 ms timers

  /** The banners still present at virtual time `now`: those whose removal
      timer has not yet fired, in their original order. */
  function Unexpired(bs: seq<Banner>, now: int): (r: seq<Banner>)
    ensures |r| <= |bs|
    ensures forall k :: 0 <= k < |r| ==> now < r[k].removeAt
  {
    if bs == [] then []
    else (if now < bs[0].removeAt then [bs[0]] else []) + Unexpired(bs[1..], now)
  }

  /** Each banner still due stays as many times as it was shown; each
      expired one is gone. */
  lemma {:induction false} UnexpiredMultiplicity(bs: seq<Banner>, now: int, b: Banner)
    ensures multiset(Unexpired(bs, now))[b] == if now < b.removeAt then multiset(bs)[b] else 0
  {
    if bs != [] {
      assert bs == [bs[0]] + bs[1..];
      UnexpiredMultiplicity(bs[1..], now, b);
    }
  }

  /** The timers keep the banners' order: expiring a run of banners followed
      by another run is expiring each run and putting the results together. */
  lemma {:induction false} UnexpiredAppend(bs: seq<Banner>, cs: seq<Banner>, now: int)
    ensures Unexpired(bs + cs, now) == Unexpired(bs, now) + Unexpired(cs, now)
  {
    if bs == [] {
      assert bs + cs == cs;
    } else {
      var head := if now < bs[0].removeAt then [bs[0]] else [];
      assert (bs + cs)[0] == bs[0] && (bs + cs)[1..] == bs[1..] + cs;
      assert Unexpired(bs + cs, now) == head + Unexpired(bs[1..] + cs, now);
      UnexpiredAppend(bs[1..], cs, now);
      var x, y := Unexpired(bs[1..], now), Unexpired(cs, now);
      assert head + (x + y) == (head + x) + y;
    }
  }

  // ---------------------------------------------------------------------
  // The form

  class Form {
    const fields: array<Field>
    var errors: Errors
    var banners: seq<Banner>
    /** The virtual time of the latest event the form has seen. */
    var clock: int

    /** A form loaded at virtual time `start`: no error message and no banner. */
    constructor (initial: seq<Field>, start: int)
      ensures fresh(fields) && fields[..] == initial
      ensures errors == map[] && banners == [] && clock == start
      ensures (forall k :: 0 <= k < |initial| ==> initial[k].border == "") ==> Reachable()
    {
      fields := new Field[|initial|](k requires 0 <= k < |initial| => initial[k]);
      errors := map[];
      banners := [];
      clock := start;
    }

    /** What the listeners can produce from a freshly loaded form: borders
        are only ever set to "#FF0000" or cleared, and no container holds
        two error messages. */
    ghost predicate Reachable()
      reads this, fields
    {
      (forall k :: 0 <= k < fields.Length ==> fields[k].border in {Red, ""}) &&
      (forall c :: |Messages(errors, c)| <= 1)
    }

    /** The blur listener: validateField(input). */
    method Blur(i: nat) returns (ok: bool)
      requires i < fields.Length
      modifies fields
      ensures ok == ValidateField(old(fields[i]))
      ensures fields[..] == old(fields[..])[i := old(fields[i]).(border := if ok then "" else Red)]
      ensures errors == old(errors) && banners == old(banners)
      ensures old(Reachable()) ==> Reachable()
    {
      ok := ValidateField(fields[i]);
      fields[i] := fields[i].(border := if ok then "" else Red);
    }

    /** The input listener: clears the border and the container's first error
        message, but only when the border reads exactly "red". */
    method Input(i: nat)
      requires i < fields.Length
      modifies this, fields
      ensures old(fields[i].border) == "red" ==>
                fields[..] == old(fields[..])[i := old(fields[i]).(border := "")] &&
                errors == (var m := Messages(old(errors), old(fields[i].parent));
                           if m == [] then old(errors) else old(errors)[old(fields[i].parent) := m[1..]])
      ensures old(fields[i].border) != "red" ==> fields[..] == old(fields[..]) && errors == old(errors)
      ensures banners == old(banners) && clock == old(clock)
      ensures old(Reachable()) ==> fields[..] == old(fields[..]) && errors == old(errors)
    {
      var f := fields[i];
      if f.border == "red" {
        fields[i] := f.(border := "");
        var m := Messages(errors, f.parent);
        if m != [] {
          errors := errors[f.parent := m[1..]];
        }
      }
    }

    /** showFormSuccess: append the thank-you banner, due for removal
        BannerLifetime ms from now, and announce the success. */
    method ShowSuccess(now: int, sr: Announcer)
      requires clock <= now
      modifies this, sr
      ensures clock == now
      ensures banners == old(banners) + [Banner(ThanksMessage, now + BannerLifetime)]
      ensures errors == old(errors)
      ensures sr.log == old(sr.log) + [SubmittedAnnouncement]
    {
      banners := banners + [Banner(ThanksMessage, now + BannerLifetime)];
      clock := now;
      sr.Announce(SubmittedAnnouncement);
    }

    /** form.reset(): every field gets its default value back. */
    method ResetValues()
      modifies fields
      ensures forall k :: 0 <= k < fields.Length ==>
                fields[k] == old(fields[k]).(value := old(fields[k].defaultValue))
    {
      var i := 0;
      while i < fields.Length
        invariant 0 <= i <= fields.Length
        invariant forall k :: 0 <= k < i ==> fields[k] == old(fields[k]).(value := old(fields[k].defaultValue))
        invariant forall k :: i <= k < fields.Length ==> fields[k] == old(fields[k])
      {
        fields[i] := fields[i].(value := fields[i].defaultValue);
        i := i + 1;
      }
    }

    /** One visit of the submit listener's loop: a required field gets the
        red border and the required message when blank, and loses both when
        filled; an optional field is left alone. */
    method CheckField(i: nat) returns (passes: bool)
      requires i < fields.Length
      modifies this, fields
      ensures passes == Passes(old(fields[i]))
      ensures fields[..] == old(fields[..])[i := Marked(old(fields[i]))]
      ensures errors == CheckRequired(old(errors), old(fields[i]))
      ensures banners == old(banners) && clock == old(clock)
    {
      var f := fields[i];
      passes := true;
      if f.required {
        var m := Messages(errors, f.parent);
        if Blank(f.value) {
          passes := false;
          fields[i] := f.(border := Red);
          errors := errors[f.parent := [RequiredMessage] + (if m == [] then [] else m[1..])];
        } else {
          fields[i] := f.(border := "");
          if m != [] {
            errors := errors[f.parent := m[1..]];
          }
        }
      }
    }

    /** The submit listener's loop over the fields, in document order. */
    method CheckFields() returns (isValid: bool)
      modifies this, fields
      ensures isValid == RequiredFilled(old(fields[..]))
      ensures errors == ErrorsAfter(old(errors), old(fields[..]))
      ensures forall k :: 0 <= k < fields.Length ==> fields[k] == Marked(old(fields[k]))
      ensures banners == old(banners) && clock == old(clock)
    {
      ghost var fs := fields[..];
      isValid := true;
      var i := 0;
      while i < fields.Length
        invariant 0 <= i <= fields.Length
        invariant isValid == RequiredFilled(fs[..i])
        invariant errors == ErrorsAfter(old(errors), fs[..i])
        invariant forall k :: 0 <= k < i ==> fields[k] == Marked(fs[k])
        invariant forall k :: i <= k < fields.Length ==> fields[k] == fs[k]
        invariant banners == old(banners) && clock == old(clock)
      {
        var passes := CheckField(i);
        isValid := isValid && passes;
        FoldStep(old(errors), fs, i);
        i := i + 1;
      }
      assert fs[..fields.Length] == fs;
    }

    /** The submit listener. */
    method Submit(now: int, sr: Announcer) returns (ok: bool)
      requires clock <= now
      modifies this, fields, sr
      ensures ok == RequiredFilled(old(fields[..]))
      ensures errors == ErrorsAfter(old(errors), old(fields[..]))
      ensures forall k :: 0 <= k < fields.Length ==>
                fields[k].value == (if ok then old(fields[k].defaultValue) else old(fields[k].value))
      ensures forall k :: 0 <= k < fields.Length ==>
                fields[k].border == Marked(old(fields[k])).border
      ensures forall k :: 0 <= k < fields.Length ==>
                fields[k].(value := "", border := "") == old(fields[k]).(value := "", border := "")
      ensures banners == if ok then old(banners) + [Banner(ThanksMessage, now + BannerLifetime)]
                         else old(banners)
      ensures sr.log == old(sr.log) + [if ok then SubmittedAnnouncement else FixErrorsAnnouncement]
      ensures clock == now
      ensures old(Reachable()) ==> Reachable()
    {
      ghost var fs := fields[..];
      var isValid := CheckFields();
      ghost var marked := fields[..];
      if isValid {
        ShowSuccess(now, sr);
        ResetValues();
      } else {
        sr.Announce(FixErrorsAnnouncement);
        clock := now;
      }
      ok := isValid;
      if old(Reachable()) {
        forall c ensures |Messages(errors, c)| <= 1 {
          AtMostOneMessageKept(old(errors), fs, c);
        }
        assert forall k :: 0 <= k < fields.Length ==> fields[k].border == marked[k].border;
      }
    }

    /** The banner timers due by virtual time `now` fire: each removes its
        own banner. */
    method ExpireBanners(now: int)
      requires clock <= now
      modifies this
      ensures banners == Unexpired(old(banners), now)
      ensures errors == old(errors) && clock == now
    {
      banners := Unexpired(banners, now);
      clock := now;
    }
  }
}
