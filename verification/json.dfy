/**
 * `JoinErrors`, the helper the handlers use to put validation messages into
 * one line. It separates messages with "; " but only once something has
 * been written, so leading empty messages vanish while later ones leave an
 * empty slot; that is where it parts from `strings.Join`.
 */
module Json {
  import opened Go

  const Separator: string := "; "

  /** The messages from the first non-empty one on. */
  function DropLeadingEmpty(errors: seq<string>): (r: seq<string>)
    ensures |r| <= |errors|
    ensures r != [] ==> r[0] != ""
  {
    if errors == [] then []
    else if errors[0] == "" then DropLeadingEmpty(errors[1..])
    else errors
  }

  /** What is dropped is a run of empty messages, and what is kept is the rest, unchanged. */
  lemma {:induction false} DropLeadingEmptySuffix(errors: seq<string>)
    ensures var r := DropLeadingEmpty(errors);
      r == errors[|errors| - |r|..] && forall i :: 0 <= i < |errors| - |r| ==> errors[i] == ""
  {
    if errors != [] && errors[0] == "" {
      DropLeadingEmptySuffix(errors[1..]);
    }
  }

  /** The reference meaning of `JoinErrors`: `strings.Join` of what is left after the leading empty messages. */
  function JoinedErrors(errors: seq<string>): string {
    Join(DropLeadingEmpty(errors), Separator)
  }

  lemma {:induction false} JoinAppend(elems: seq<string>, sep: string, e: string)
    requires elems != []
    ensures Join(elems + [e], sep) == Join(elems, sep) + sep + e
  {
    if |elems| == 1 {
      assert elems + [e] == [elems[0], e];
      assert Join([e], sep) == e;
    } else {
      assert (elems + [e])[1..] == elems[1..] + [e];
      JoinAppend(elems[1..], sep, e);
    }
  }

  lemma {:induction false} JoinStartsWithFirst(elems: seq<string>, sep: string)
    requires elems != []
    ensures HasPrefix(Join(elems, sep), elems[0])
  {
    if |elems| > 1 {
      var r := Join(elems, sep);
      assert r == elems[0] + (sep + Join(elems[1..], sep));
      assert r[..|elems[0]|] == elems[0];
    }
  }

  lemma {:induction false} DropLeadingEmptyAppend(errors: seq<string>, e: string)
    ensures DropLeadingEmpty(errors + [e]) ==
      if DropLeadingEmpty(errors) == [] then (if e == "" then [] else [e])
      else DropLeadingEmpty(errors) + [e]
  {
    if errors == [] {
      assert errors + [e] == [e];
    } else {
      assert (errors + [e])[1..] == errors[1..] + [e];
      if errors[0] == "" {
        DropLeadingEmptyAppend(errors[1..], e);
      }
    }
  }

  /** One more message extends the joined text exactly as one turn of the loop does. */
  lemma JoinedErrorsStep(prefix: seq<string>, e: string)
    ensures var before := JoinedErrors(prefix);
      JoinedErrors(prefix + [e]) == (if before != "" then before + Separator else before) + e
  {
    var d := DropLeadingEmpty(prefix);
    DropLeadingEmptyAppend(prefix, e);
    if d == [] {
      assert JoinedErrors(prefix) == "";
      if e == "" {
        assert JoinedErrors(prefix + [e]) == "";
      } else {
        assert JoinedErrors(prefix + [e]) == Join([e], Separator) == e;
      }
      assert "" + e == e;
    } else {
      JoinAppend(d, Separator, e);
      JoinStartsWithFirst(d, Separator);
      assert JoinedErrors(prefix) != "";
    }
  }

  /** `JoinErrors(errors)`: the loop over the messages, appending to `result`. */
  method JoinErrors(errors: seq<string>) returns (result: string)
    ensures result == JoinedErrors(errors)
  {
    if |errors| == 0 {
      return "";
    }
    result := "";
    for i := 0 to |errors|
      invariant result == JoinedErrors(errors[..i])
    {
      assert errors[..i + 1] == errors[..i] + [errors[i]];
      JoinedErrorsStep(errors[..i], errors[i]);
      if result != "" {
        result := result + Separator;
      }
      result := result + errors[i];
    }
    assert errors[..|errors|] == errors;
  }

  /** An empty list gives the empty string. */
  lemma JoinedErrorsEmpty()
    ensures JoinedErrors([]) == ""
  {
  }

  /** A single message comes back unchanged. */
  lemma JoinedErrorsSingle(e: string)
    ensures JoinedErrors([e]) == e
  {
  }

  function TotalLength(elems: seq<string>): nat {
    if elems == [] then 0 else |elems[0]| + TotalLength(elems[1..])
  }

  /**
   * Without empty messages the result is `strings.Join` with "; ", and its
   * length is the messages' total length plus two characters per separator.
   */
  lemma {:induction false} JoinedErrorsNoEmpty(errors: seq<string>)
    requires errors != []
    requires forall i :: 0 <= i < |errors| ==> errors[i] != ""
    ensures JoinedErrors(errors) == Join(errors, Separator)
    ensures |JoinedErrors(errors)| == TotalLength(errors) + 2 * (|errors| - 1)
  {
    JoinLength(errors, Separator);
  }

  lemma {:induction false} JoinLength(elems: seq<string>, sep: string)
    requires elems != []
    ensures |Join(elems, sep)| == TotalLength(elems) + |sep| * (|elems| - 1)
  {
    if |elems| > 1 {
      JoinLength(elems[1..], sep);
    }
  }

  /**
   * A non-empty result begins with the first non-empty message, so it never
   * begins with a separator unless that message does.
   */
  lemma JoinedErrorsStart(errors: seq<string>)
    ensures JoinedErrors(errors) == "" <==> forall i :: 0 <= i < |errors| ==> errors[i] == ""
    ensures DropLeadingEmpty(errors) != [] ==>
      HasPrefix(JoinedErrors(errors), DropLeadingEmpty(errors)[0])
  {
    var d := DropLeadingEmpty(errors);
    DropLeadingEmptySuffix(errors);
    if d != [] {
      JoinStartsWithFirst(d, Separator);
      assert errors[|errors| - |d|] == d[0];
    }
  }

  /** Where it parts from `strings.Join`: a leading empty message adds no separator. */
  lemma LeadingEmptyDiffersFromJoin()
    ensures JoinedErrors(["", "a"]) == "a"
    ensures Join(["", "a"], Separator) == "; a"
  {
    assert DropLeadingEmpty(["", "a"]) == ["a"] by {
      assert ["", "a"][1..] == ["a"];
    }
  }
}
