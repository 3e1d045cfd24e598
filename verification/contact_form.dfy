/**
 The contact form's submit handler. The three fields (name, e-mail, message)
 are trimmed; if any of them is then empty the user is told to fill in all
 fields and nothing else happens. Otherwise the submit button switches to its
 "sent" look and the user is thanked by (trimmed) name and e-mail address.
 */
module ContactForm {

  /** The characters `String.prototype.trim` removes: the ECMAScript
      WhiteSpace and LineTerminator code points (tab, vertical tab, form feed,
      space, no-break space, byte order mark, the Unicode space separators,
      line feed, carriage return, line and paragraph separators). */
  predicate IsTrimmable(c: char) {
    var n := c as int;
    || n == 0x09 || n == 0x0B || n == 0x0C || n == 0x20 || n == 0xA0 || n == 0xFEFF
    || n == 0x1680 || (0x2000 <= n <= 0x200A) || n == 0x202F || n == 0x205F || n == 0x3000
    || n == 0x0A || n == 0x0D || n == 0x2028 || n == 0x2029
  }

  predicate AllTrimmable(s: string) {
    forall i :: 0 <= i < |s| ==> IsTrimmable(s[i])
  }

  /** Drops leading whitespace: the result is a suffix of the input that does
      not start with whitespace, and only whitespace was dropped. */
  function TrimStart(s: string): (r: string)
    ensures |r| <= |s| && r == s[|s| - |r|..]
    ensures AllTrimmable(s[..|s| - |r|])
    ensures |r| > 0 ==> !IsTrimmable(r[0])
  {
    if |s| > 0 && IsTrimmable(s[0]) then
      var r := TrimStart(s[1..]);
      var dropped := s[..|s| - |r|];
      assert forall i :: 1 <= i < |dropped| ==> dropped[i] == s[1..][..|s| - 1 - |r|][i - 1];
      r
    else
      s
  }

  /** Drops trailing whitespace: the result is a prefix of the input that does
      not end with whitespace, and only whitespace was dropped. */
  function TrimEnd(s: string): (r: string)
    ensures |r| <= |s| && r == s[..|r|]
    ensures AllTrimmable(s[|r|..])
    ensures |r| > 0 ==> !IsTrimmable(r[|r| - 1])
  {
    if |s| > 0 && IsTrimmable(s[|s| - 1]) then
      var r := TrimEnd(s[..|s| - 1]);
      var dropped := s[|r|..];
      assert forall i :: 0 <= i < |dropped| - 1 ==> dropped[i] == s[..|s| - 1][|r|..][i];
      r
    else
      s
  }

  /** `String.prototype.trim`: what it keeps is a contiguous slice of the
      input with only whitespace outside it, and that slice has no whitespace
      at either end. */
  function Trim(s: string): (r: string)
    ensures exists i :: 0 <= i <= |s| - |r| && r == s[i..i + |r|] && AllTrimmable(s[..i]) && AllTrimmable(s[i + |r|..])
    ensures |r| > 0 ==> !IsTrimmable(r[0]) && !IsTrimmable(r[|r| - 1])
  {
    var t := TrimStart(s);
    var u := TrimEnd(t);
    var i := |s| - |t|;
    assert t[|u|..] == s[i + |u|..];
    assert u == s[i..i + |u|];
    u
  }

  /** A field is empty after trimming exactly when it holds only whitespace. */
  lemma TrimEmptyIffBlank(s: string)
    ensures Trim(s) == [] <==> AllTrimmable(s)
  {
  }

  /** The form's fields as typed, and whether the submit button shows the
      "sent" state. */
  datatype Form = Form(name: string, email: string, message: string, sent: bool)

  /** The notice shown to the user. */
  datatype Notice = FillInAllFields | Thanks(name: string, email: string)

  datatype Submission = Submission(form: Form, notice: Notice)

  /** The submit handler. */
  function Submit(f: Form): (r: Submission)
    // accepted exactly when no field is blank
    ensures r.notice.Thanks? <==> !AllTrimmable(f.name) && !AllTrimmable(f.email) && !AllTrimmable(f.message)
    // a rejection leaves the form exactly as it was
    ensures r.notice == FillInAllFields ==> r.form == f
    // an acceptance thanks the user by the trimmed values and switches the
    // button, leaving the fields as typed
    ensures r.notice.Thanks? ==>
              && r.notice == Thanks(Trim(f.name), Trim(f.email))
              && r.form == f.(sent := true)
  {
    TrimEmptyIffBlank(f.name);
    TrimEmptyIffBlank(f.email);
    TrimEmptyIffBlank(f.message);
    var n, em, m := Trim(f.name), Trim(f.email), Trim(f.message);
    if n == [] || em == [] || m == [] then
      Submission(f, FillInAllFields)
    else
      Submission(f.(sent := true), Thanks(n, em))
  }
}
