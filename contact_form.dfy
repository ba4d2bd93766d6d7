/**
 * The contact form's submit handler: every required field whose trimmed
 * value is empty gets a red border, every other one has its border cleared,
 * and the submission is cancelled when at least one was empty.
 */
module ContactFormValidation {

  /** The border colour that marks an empty required field. */
  const ErrorBorder: string := "#ff3b30"

  /**
   * The characters `String.prototype.trim` removes: the WhiteSpace and
   * LineTerminator code points of ECMAScript (tab, vertical tab, form feed,
   * no-break space, byte-order mark, the space separators, LF, CR, and the
   * line and paragraph separators).
   */
  predicate IsJsWhitespace(c: char)
  {
    || c == '\U{9}' || c == '\U{B}' || c == '\U{C}' || c == '\U{20}'
    || c == '\U{A0}' || c == '\U{FEFF}'
    || c == '\U{1680}' || ('\U{2000}' <= c <= '\U{200A}') || c == '\U{202F}' || c == '\U{205F}' || c == '\U{3000}'
    || c == '\U{A}' || c == '\U{D}' || c == '\U{2028}' || c == '\U{2029}'
  }

  /** Drops leading whitespace. */
  function TrimStart(s: string): (r: string)
    decreases |s|
  {
    if |s| > 0 && IsJsWhitespace(s[0]) then TrimStart(s[1..]) else s
  }

  /** Drops trailing whitespace. */
  function TrimEnd(s: string): (r: string)
    decreases |s|
  {
    if |s| > 0 && IsJsWhitespace(s[|s| - 1]) then TrimEnd(s[..|s| - 1]) else s
  }

  /** `TrimStart` keeps a suffix, drops only whitespace, and stops at the first non-whitespace character. */
  lemma {:induction false} TrimStartDropsWhitespace(s: string)
    ensures var r := TrimStart(s);
      && |r| <= |s| && r == s[|s| - |r|..]
      && (forall i :: 0 <= i < |s| - |r| ==> IsJsWhitespace(s[i]))
      && (|r| > 0 ==> !IsJsWhitespace(r[0]))
    decreases |s|
  {
    if |s| > 0 && IsJsWhitespace(s[0]) {
      TrimStartDropsWhitespace(s[1..]);
      assert s[1..][|s| - 1 - |TrimStart(s)|..] == s[|s| - |TrimStart(s)|..];
    }
  }

  /** `TrimEnd` keeps a prefix, drops only whitespace, and stops at the last non-whitespace character. */
  lemma {:induction false} TrimEndDropsWhitespace(s: string)
    ensures var r := TrimEnd(s);
      && |r| <= |s| && r == s[..|r|]
      && (forall i :: |r| <= i < |s| ==> IsJsWhitespace(s[i]))
      && (|r| > 0 ==> !IsJsWhitespace(r[|r| - 1]))
    decreases |s|
  {
    if |s| > 0 && IsJsWhitespace(s[|s| - 1]) {
      TrimEndDropsWhitespace(s[..|s| - 1]);
      assert s[..|s| - 1][..|TrimEnd(s)|] == s[..|TrimEnd(s)|];
    }
  }

  /** `value.trim()`. */
  function Trim(s: string): (r: string)
  {
    TrimEnd(TrimStart(s))
  }

  /** `!input.value.trim()`: the trimmed value is the empty, falsy, string. */
  predicate IsBlank(value: string)
  {
    Trim(value) == ""
  }

  /** A value is blank exactly when every character of it is whitespace (the empty value included). */
  lemma BlankIffAllWhitespace(value: string)
    ensures IsBlank(value) <==> forall i :: 0 <= i < |value| ==> IsJsWhitespace(value[i])
  {
    var t := TrimStart(value);
    TrimStartDropsWhitespace(value);
    TrimEndDropsWhitespace(t);
    assert |t| > 0 ==> t[0] == value[|value| - |t|];
    if !forall i :: 0 <= i < |value| ==> IsJsWhitespace(value[i]) {
      var k :| 0 <= k < |value| && !IsJsWhitespace(value[k]);
      assert k >= |value| - |t|;
      assert t[k - (|value| - |t|)] == value[k];
    }
  }

  /** A required form control: its value and its `style.borderColor`. */
  datatype Field = Field(value: string, borderColor: string)

  /** One field after the handler has looked at it. */
  function Mark(f: Field): (r: Field)
    ensures r.value == f.value
    ensures r.borderColor == ErrorBorder <==> IsBlank(f.value)
    ensures !IsBlank(f.value) ==> r.borderColor == ""
  {
    f.(borderColor := if IsBlank(f.value) then ErrorBorder else "")
  }

  /** The fields after the handler has marked them. */
  function Marked(fields: seq<Field>): (r: seq<Field>)
    ensures |r| == |fields|
    ensures forall i :: 0 <= i < |r| ==>
      && r[i].value == fields[i].value
      && (r[i].borderColor == ErrorBorder <==> IsBlank(fields[i].value))
      && (!IsBlank(fields[i].value) ==> r[i].borderColor == "")
  {
    seq(|fields|, i requires 0 <= i < |fields| => Mark(fields[i]))
  }

  /** Submission is cancelled: some required field is blank. */
  predicate Blocked(fields: seq<Field>)
  {
    exists i :: 0 <= i < |fields| && IsBlank(fields[i].value)
  }

  /**
   * The marks tell the whole story: submission is blocked exactly when some
   * field ends up with the error border; values never change; and submitting
   * again marks the fields the same way.
   */
  lemma MarksMatchBlocking(fields: seq<Field>)
    ensures Blocked(fields) <==> exists j :: 0 <= j < |fields| && Marked(fields)[j].borderColor == ErrorBorder
    ensures forall j :: 0 <= j < |fields| ==> Marked(fields)[j].value == fields[j].value
    ensures Marked(Marked(fields)) == Marked(fields)
    ensures Blocked(Marked(fields)) == Blocked(fields)
  {
    var m := Marked(fields);
    if Blocked(fields) {
      var i :| 0 <= i < |fields| && IsBlank(fields[i].value);
      assert m[i].borderColor == ErrorBorder;
      assert IsBlank(m[i].value);
    }
    if exists j :: 0 <= j < |fields| && m[j].borderColor == ErrorBorder {
      var j :| 0 <= j < |fields| && m[j].borderColor == ErrorBorder;
      assert IsBlank(fields[j].value);
    }
    if Blocked(m) {
      var j :| 0 <= j < |m| && IsBlank(m[j].value);
      assert IsBlank(fields[j].value);
    }
  }

  /** The form's required fields, in document order. */
  class ContactForm {
    var fields: seq<Field>

    constructor (fields: seq<Field>)
      ensures this.fields == fields
    {
      this.fields := fields;
    }

    /** `handleSubmit(e)`; `prevented` says whether `e.preventDefault()` was called. */
    method HandleSubmit() returns (prevented: bool)
      modifies this
      ensures fields == Marked(old(fields))
      ensures prevented == Blocked(old(fields))
      ensures prevented <==> exists i :: 0 <= i < |fields| && fields[i].borderColor == ErrorBorder
    {
      ghost var given := fields;
      var isValid := true;
      var i := 0;
      while i < |fields|
        invariant 0 <= i <= |fields| == |given|
        invariant forall m :: 0 <= m < i ==> fields[m] == Mark(given[m])
        invariant forall m :: i <= m < |fields| ==> fields[m] == given[m]
        invariant isValid <==> forall m :: 0 <= m < i ==> !IsBlank(given[m].value)
      {
        var input := fields[i];
        if Trim(input.value) == "" {
          isValid := false;
          fields := fields[i := input.(borderColor := ErrorBorder)];
        } else {
          fields := fields[i := input.(borderColor := "")];
        }
        i := i + 1;
      }
      prevented := !isValid;
      assert |fields| == |Marked(given)|;
      assert forall m :: 0 <= m < |fields| ==> fields[m] == Marked(given)[m];
      if !isValid {
        ghost var k :| 0 <= k < |given| && IsBlank(given[k].value);
        assert fields[k].borderColor == ErrorBorder;
      }
    }
  }
}
