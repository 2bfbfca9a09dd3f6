/**
  The fold in the `chat` handler of `api/routes/chat_route.py` that turns
  the avatar messages returned by the assistant into one message: the texts
  joined line by line, and the first facial expression and animation that
  differ from the defaults.

  The `Message` schema in `api/schemas/chat_schema.py` declares only
  `text`; the expression and animation the fold computes are passed to it as
  extra keyword arguments, which the schema ignores. They are modelled
  because the fold computes them.
 */
module ChatCombine {
  import opened Wrappers
  import opened PyText
  import opened Messages

  /** What the assistant returned: a list of entries, or a single value
      (`Single(NonDict)` stands for anything that is neither list nor
      dict). */
  datatype Reply = Items(entries: seq<Entry>) | Single(e: Entry)

  const TextKey := "text"
  const FacialKey := "facialExpression"
  const AnimationKey := "animation"
  const DefaultFacial := Str("default")
  const DefaultAnimation := Str("StandingIdle")

  /** The line one entry contributes: `str(text) + "\n"` when its text is
      truthy, nothing otherwise (a non-dict has no text). */
  function Piece(e: Entry): string {
    if HasTruthy(e, TextKey) then Render(Get(e, TextKey).value) + "\n" else ""
  }

  /** The lines of all entries, in order. */
  function Joined(entries: seq<Entry>): string {
    if |entries| == 0 then "" else Piece(entries[0]) + Joined(entries[1..])
  }

  /** An entry that sets `key`: it has a truthy text and a truthy value for
      `key` that is not the default. */
  predicate Overrides(e: Entry, key: string, dflt: Field) {
    HasTruthy(e, TextKey) && HasTruthy(e, key) && Get(e, key).value != dflt
  }

  /** The value of `key` in the first entry that overrides it, or the
      default. */
  function FirstOverride(entries: seq<Entry>, key: string, dflt: Field): Field {
    if |entries| == 0 then dflt
    else if Overrides(entries[0], key, dflt) then Get(entries[0], key).value
    else FirstOverride(entries[1..], key, dflt)
  }

  /** `FirstOverride` is the default exactly when no entry overrides, and
      otherwise the value of the earliest entry that does. */
  lemma {:induction false} FirstOverrideIsFirst(entries: seq<Entry>, key: string, dflt: Field)
    ensures FirstOverride(entries, key, dflt) == dflt <==>
              forall i :: 0 <= i < |entries| ==> !Overrides(entries[i], key, dflt)
    ensures FirstOverride(entries, key, dflt) != dflt ==>
              exists i :: 0 <= i < |entries| && Overrides(entries[i], key, dflt)
                && FirstOverride(entries, key, dflt) == Get(entries[i], key).value
                && forall j :: 0 <= j < i ==> !Overrides(entries[j], key, dflt)
  {
    if |entries| > 0 {
      var rest := entries[1..];
      FirstOverrideIsFirst(rest, key, dflt);
      assert forall i :: 0 < i < |entries| ==> entries[i] == rest[i - 1];
      if !Overrides(entries[0], key, dflt) && FirstOverride(rest, key, dflt) != dflt {
        var i :| 0 <= i < |rest| && Overrides(rest[i], key, dflt)
                 && FirstOverride(rest, key, dflt) == Get(rest[i], key).value
                 && forall j :: 0 <= j < i ==> !Overrides(rest[j], key, dflt);
        assert entries[i + 1] == rest[i];
        forall j | 0 <= j < i + 1
          ensures !Overrides(entries[j], key, dflt)
        {
          if j > 0 {
            assert entries[j] == rest[j - 1];
          }
        }
      }
    }
  }

  /** Appending an entry appends its line. */
  lemma {:induction false} JoinedSnoc(entries: seq<Entry>, e: Entry)
    ensures Joined(entries + [e]) == Joined(entries) + Piece(e)
  {
    if |entries| == 0 {
      assert [e][1..] == [];
    } else {
      var rest := entries[1..];
      assert (entries + [e])[0] == entries[0];
      assert (entries + [e])[1..] == rest + [e];
      JoinedSnoc(rest, e);
      calc {
        Joined(entries + [e]);
        Piece(entries[0]) + Joined(rest + [e]);
        Piece(entries[0]) + (Joined(rest) + Piece(e));
        (Piece(entries[0]) + Joined(rest)) + Piece(e);
      }
    }
  }

  /** Appending an entry changes the first override only while it is still
      the default, and only to a truthy value of an entry with text: the
      step the handler's loop takes. */
  lemma {:induction false} FirstOverrideSnoc(entries: seq<Entry>, e: Entry, key: string, dflt: Field)
    ensures FirstOverride(entries + [e], key, dflt) ==
              if FirstOverride(entries, key, dflt) == dflt && HasTruthy(e, TextKey) && HasTruthy(e, key)
              then Get(e, key).value
              else FirstOverride(entries, key, dflt)
  {
    if |entries| == 0 {
      assert [e][1..] == [];
    } else {
      assert (entries + [e])[0] == entries[0];
      assert (entries + [e])[1..] == entries[1..] + [e];
      FirstOverrideSnoc(entries[1..], e, key, dflt);
    }
  }

  /** The handler's loop over a list: every entry with truthy text adds its
      line and may set the expression and animation while they still hold
      their defaults. */
  method Fold(entries: seq<Entry>) returns (combined: string, facialExpression: Field, animation: Field)
    ensures combined == Joined(entries)
    ensures facialExpression == FirstOverride(entries, FacialKey, DefaultFacial)
    ensures animation == FirstOverride(entries, AnimationKey, DefaultAnimation)
  {
    combined := "";
    facialExpression := DefaultFacial;
    animation := DefaultAnimation;
    var i := 0;
    while i < |entries|
      invariant 0 <= i <= |entries|
      invariant combined == Joined(entries[..i])
      invariant facialExpression == FirstOverride(entries[..i], FacialKey, DefaultFacial)
      invariant animation == FirstOverride(entries[..i], AnimationKey, DefaultAnimation)
    {
      var m := entries[i];
      assert entries[..i + 1] == entries[..i] + [m];
      JoinedSnoc(entries[..i], m);
      FirstOverrideSnoc(entries[..i], m, FacialKey, DefaultFacial);
      FirstOverrideSnoc(entries[..i], m, AnimationKey, DefaultAnimation);
      var t := Get(m, TextKey);
      if t.Some? && Truthy(t.value) {
        combined := combined + Render(t.value) + "\n";
        var f := Get(m, FacialKey);
        if facialExpression == DefaultFacial && f.Some? && Truthy(f.value) {
          facialExpression := f.value;
        }
        var a := Get(m, AnimationKey);
        if animation == DefaultAnimation && a.Some? && Truthy(a.value) {
          animation := a.value;
        }
      }
      i := i + 1;
    }
    assert entries[..|entries|] == entries;
  }

  /** The fold of the `chat` handler: a list is folded as above; a dict with
      a `"text"` key is taken as the single message, with defaults for
      missing fields; anything else gives an empty text. The text is
      stripped at the end. */
  method Combine(reply: Reply) returns (text: string, facialExpression: Field, animation: Field)
    ensures reply.Items? ==>
              && text == Strip(Joined(reply.entries))
              && facialExpression == FirstOverride(reply.entries, FacialKey, DefaultFacial)
              && animation == FirstOverride(reply.entries, AnimationKey, DefaultAnimation)
    ensures reply.Single? && reply.e.Dict? && TextKey in reply.e.fields ==>
              && text == Strip(Render(reply.e.fields[TextKey]))
              && facialExpression == Get(reply.e, FacialKey).GetOr(DefaultFacial)
              && animation == Get(reply.e, AnimationKey).GetOr(DefaultAnimation)
    ensures reply.Single? && !(reply.e.Dict? && TextKey in reply.e.fields) ==>
              text == "" && facialExpression == DefaultFacial && animation == DefaultAnimation
  {
    var combined := "";
    facialExpression := DefaultFacial;
    animation := DefaultAnimation;
    if reply.Items? {
      combined, facialExpression, animation := Fold(reply.entries);
    } else if reply.e.Dict? && TextKey in reply.e.fields {
      combined := Render(reply.e.fields[TextKey]);
      facialExpression := Get(reply.e, FacialKey).GetOr(DefaultFacial);
      animation := Get(reply.e, AnimationKey).GetOr(DefaultAnimation);
    }
    text := Strip(combined);
  }

  /** The joined text is empty exactly when no entry has a truthy text. */
  lemma {:induction false} JoinedIsEmptyIff(entries: seq<Entry>)
    ensures Joined(entries) == "" <==> forall i :: 0 <= i < |entries| ==> !HasTruthy(entries[i], TextKey)
  {
    if |entries| > 0 {
      JoinedIsEmptyIff(entries[1..]);
      assert forall i :: 0 < i < |entries| ==> entries[i] == entries[1..][i - 1];
      if HasTruthy(entries[0], TextKey) {
        assert |Piece(entries[0])| > 0;
      }
    }
  }
}
