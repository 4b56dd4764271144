/** The upload file name: `name.replace(/\s+/g, '_')`, which turns every
    maximal run of whitespace into a single underscore. */
module Filename {

  /** What `\s` matches in a JavaScript pattern: the white-space characters
      and the line terminators. */
  predicate IsJsWhitespace(c: char) {
    || c == '\t' || c == '\n' || c == '\U{000B}' || c == '\U{000C}' || c == '\r'
    || c == ' ' || c == '\U{00A0}' || c == '\U{1680}' || '\U{2000}' <= c <= '\U{200A}'
    || c == '\U{2028}' || c == '\U{2029}' || c == '\U{202F}' || c == '\U{205F}'
    || c == '\U{3000}' || c == '\U{FEFF}'
  }

  /** `s` without its leading run of whitespace. */
  function DropRun(s: string): (r: string)
    ensures |r| <= |s|
  {
    if s != [] && IsJsWhitespace(s[0]) then DropRun(s[1..]) else s
  }

  /** What `DropRun` leaves is a suffix that does not start with whitespace,
      and everything it removed was whitespace. */
  lemma {:induction false} DropRunSuffix(s: string)
    ensures DropRun(s) == s[|s| - |DropRun(s)|..]
    ensures DropRun(s) == [] || !IsJsWhitespace(DropRun(s)[0])
    ensures forall i | 0 <= i < |s| - |DropRun(s)| :: IsJsWhitespace(s[i])
  {
    if s != [] && IsJsWhitespace(s[0]) {
      DropRunSuffix(s[1..]);
    }
  }

  /** `s.replace(/\s+/g, '_')`. */
  function Sanitize(s: string): string
    decreases |s|
  {
    if s == [] then []
    else if IsJsWhitespace(s[0]) then "_" + Sanitize(DropRun(s))
    else [s[0]] + Sanitize(s[1..])
  }

  /** The name sent has no whitespace left and is never longer than the
      original. */
  lemma {:induction false} SanitizeRemovesWhitespace(s: string)
    ensures forall c <- Sanitize(s) :: !IsJsWhitespace(c)
    ensures |Sanitize(s)| <= |s|
    decreases |s|
  {
    if s != [] {
      if IsJsWhitespace(s[0]) {
        SanitizeRemovesWhitespace(DropRun(s));
      } else {
        SanitizeRemovesWhitespace(s[1..]);
      }
    }
  }

  /** A name without whitespace is sent as it is. */
  lemma {:induction false} SanitizeClean(s: string)
    requires forall c <- s :: !IsJsWhitespace(c)
    ensures Sanitize(s) == s
  {
    if s != [] {
      assert s[0] in s;
      SanitizeClean(s[1..]);
    }
  }

  /** Sanitising twice changes nothing more. */
  lemma SanitizeIdempotent(s: string)
    ensures Sanitize(Sanitize(s)) == Sanitize(s)
  {
    SanitizeRemovesWhitespace(s);
    SanitizeClean(Sanitize(s));
  }

  /** The characters of `s` other than whitespace and underscores, in order. */
  function Text(s: string): string {
    if s == [] then []
    else if IsJsWhitespace(s[0]) || s[0] == '_' then Text(s[1..])
    else [s[0]] + Text(s[1..])
  }

  /** Dropping a run of whitespace leaves the text alone. */
  lemma {:induction false} TextDropRun(s: string)
    ensures Text(DropRun(s)) == Text(s)
  {
    if s != [] && IsJsWhitespace(s[0]) {
      TextDropRun(s[1..]);
    }
  }

  /** Sanitising keeps every character that is neither whitespace nor an
      underscore, in the same order. */
  lemma {:induction false} SanitizeKeepsText(s: string)
    ensures Text(Sanitize(s)) == Text(s)
    decreases |s|
  {
    if s != [] {
      if IsJsWhitespace(s[0]) {
        SanitizeKeepsText(DropRun(s));
        TextDropRun(s);
        assert ("_" + Sanitize(DropRun(s)))[1..] == Sanitize(DropRun(s));
      } else {
        SanitizeKeepsText(s[1..]);
        assert ([s[0]] + Sanitize(s[1..]))[1..] == Sanitize(s[1..]);
      }
    }
  }

  /** A string made only of whitespace. */
  predicate AllWhitespace(w: string) {
    forall c <- w :: IsJsWhitespace(c)
  }

  /** Once the leading run ends inside `a`, what follows `a` is untouched. */
  lemma {:induction false} DropRunAppend(a: string, t: string)
    requires !AllWhitespace(a)
    ensures DropRun(a + t) == DropRun(a) + t
  {
    assert a != [];
    if IsJsWhitespace(a[0]) {
      assert !AllWhitespace(a[1..]) by {
        var c :| c in a && !IsJsWhitespace(c);
        assert c != a[0] && c in a[1..];
      }
      assert (a + t)[1..] == a[1..] + t;
      DropRunAppend(a[1..], t);
    }
  }

  /** Sanitising a string that starts with a whitespace run ending inside `a`. */
  lemma UnfoldRunHead(a: string, t: string)
    requires a != [] && IsJsWhitespace(a[0]) && !AllWhitespace(a)
    ensures Sanitize(a + t) == "_" + Sanitize(DropRun(a) + t)
  {
    DropRunAppend(a, t);
  }

  /** Sanitising a string that starts with a character other than whitespace. */
  lemma UnfoldCharHead(a: string, t: string)
    requires a != [] && !IsJsWhitespace(a[0])
    ensures Sanitize(a + t) == [a[0]] + Sanitize(a[1..] + t)
  {
    assert (a + t)[1..] == a[1..] + t;
  }

  /** Sanitising splits at a point just after a character other than
      whitespace: no run crosses it. */
  lemma {:induction false} SanitizeAppend(a: string, t: string)
    requires a == [] || !IsJsWhitespace(a[|a| - 1])
    ensures Sanitize(a + t) == Sanitize(a) + Sanitize(t)
    decreases |a|, 1
  {
    if a == [] {
      assert a + t == t;
    } else if IsJsWhitespace(a[0]) {
      SanitizeAppendRunHead(a, t);
    } else {
      SanitizeAppendCharHead(a, t);
    }
  }

  /** `SanitizeAppend` when `a` starts with whitespace. */
  lemma {:induction false} SanitizeAppendRunHead(a: string, t: string)
    requires a != [] && IsJsWhitespace(a[0]) && !IsJsWhitespace(a[|a| - 1])
    ensures Sanitize(a + t) == Sanitize(a) + Sanitize(t)
    decreases |a|, 0
  {
    var a' := DropRun(a);
    assert !AllWhitespace(a) by {
      assert a[|a| - 1] in a;
    }
    DropRunSuffix(a);
    assert a' != [] && a'[|a'| - 1] == a[|a| - 1];
    calc {
      Sanitize(a + t);
    == { UnfoldRunHead(a, t); }
      "_" + Sanitize(a' + t);
    == { SanitizeAppend(a', t); }
      "_" + (Sanitize(a') + Sanitize(t));
    == { assert Sanitize(a) == "_" + Sanitize(a'); }
      Sanitize(a) + Sanitize(t);
    }
  }

  /** `SanitizeAppend` when `a` starts with a character other than whitespace. */
  lemma {:induction false} SanitizeAppendCharHead(a: string, t: string)
    requires a != [] && !IsJsWhitespace(a[0]) && !IsJsWhitespace(a[|a| - 1])
    ensures Sanitize(a + t) == Sanitize(a) + Sanitize(t)
    decreases |a|, 0
  {
    var a' := a[1..];
    assert a' == [] || a'[|a'| - 1] == a[|a| - 1];
    calc {
      Sanitize(a + t);
    == { UnfoldCharHead(a, t); }
      [a[0]] + Sanitize(a' + t);
    == { SanitizeAppend(a', t); }
      [a[0]] + (Sanitize(a') + Sanitize(t));
    == { assert Sanitize(a) == [a[0]] + Sanitize(a'); }
      Sanitize(a) + Sanitize(t);
    }
  }

  /** A leading whitespace run becomes one underscore. */
  lemma {:induction false} SanitizeLeadingRun(w: string, b: string)
    requires w != [] && AllWhitespace(w)
    requires b == [] || !IsJsWhitespace(b[0])
    ensures Sanitize(w + b) == "_" + Sanitize(b)
  {
    assert w[0] in w;
    assert (w + b)[0] == w[0];
    WhitespaceRunDropped(w, b);
  }

  /** One whitespace run becomes one underscore: for a run `w` with no
      whitespace just before it (the end of `a`) or just after it (the start
      of `b`), `Sanitize(a + w + b)` is `Sanitize(a) + "_" + Sanitize(b)`. */
  lemma {:induction false} SanitizeRun(a: string, w: string, b: string)
    requires a == [] || !IsJsWhitespace(a[|a| - 1])
    requires w != [] && AllWhitespace(w)
    requires b == [] || !IsJsWhitespace(b[0])
    ensures Sanitize(a + w + b) == Sanitize(a) + "_" + Sanitize(b)
  {
    var t := w + b;
    calc {
      Sanitize(a + w + b);
    == { assert a + w + b == a + (w + b); }
      Sanitize(a + t);
    == { SanitizeAppend(a, t); }
      Sanitize(a) + Sanitize(t);
    == { SanitizeLeadingRun(w, b); }
      Sanitize(a) + ("_" + Sanitize(b));
    == { assert Sanitize(a) + ("_" + Sanitize(b)) == Sanitize(a) + "_" + Sanitize(b); }
      Sanitize(a) + "_" + Sanitize(b);
    }
  }

  /** Dropping the leading run of `w + b` removes exactly the run `w`. */
  lemma {:induction false} WhitespaceRunDropped(w: string, b: string)
    requires AllWhitespace(w)
    requires b == [] || !IsJsWhitespace(b[0])
    ensures DropRun(w + b) == b
  {
    if w != [] {
      assert w[0] in w;
      assert (w + b)[1..] == w[1..] + b;
      WhitespaceRunDropped(w[1..], b);
    } else {
      assert w + b == b;
    }
  }
}
