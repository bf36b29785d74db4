/**
  The few JavaScript string operations that app.js relies on:
  `split` and `join` with a one-character separator, and `trim`.
  Strings are sequences of Unicode scalar values.
*/
module JsText {
  import opened Seqs

  // ---------------------------------------------------------------------------
  // split and join
  // ---------------------------------------------------------------------------

  /** `Array.prototype.join(sep)` on an array of strings. */
  function Join(parts: seq<string>, sep: char): string
  {
    if |parts| == 0 then []
    else if |parts| == 1 then parts[0]
    else parts[0] + [sep] + Join(parts[1..], sep)
  }

  /**
    `String.prototype.split(sep)` for a one-character separator: the pieces
    between occurrences of `sep`, in order. There is always at least one
    piece, none of them contains `sep`, and joining them back gives `s`.
  */
  function Split(s: string, sep: char): (parts: seq<string>)
    ensures |parts| >= 1
    ensures forall i :: 0 <= i < |parts| ==> sep !in parts[i]
    ensures Join(parts, sep) == s
  {
    if s == [] then [[]]
    else
      var rest := Split(s[1..], sep);
      if s[0] == sep then
        assert s == [sep] + s[1..];
        [[]] + rest
      else
        assert s == [s[0]] + s[1..];
        [[s[0]] + rest[0]] + rest[1..]
  }

  /** Index of the first occurrence of `c` in `s`. */
  function IndexOf(s: string, c: char): (i: nat)
    requires c in s
    ensures i < |s| && s[i] == c && c !in s[..i]
  {
    if s[0] == c then 0
    else
      assert c in s[1..] by {
        var k :| 0 <= k < |s| && s[k] == c;
        assert s[1..][k - 1] == c;
      }
      var j := IndexOf(s[1..], c);
      assert s[..j + 1] == [s[0]] + s[1..][..j];
      j + 1
  }

  /** A piece free of the separator, followed by the separator, splits off as one piece. */
  lemma {:induction false} SplitPrefix(a: string, sep: char, b: string)
    requires sep !in a
    ensures Split(a + [sep] + b, sep) == [a] + Split(b, sep)
  {
    var s := a + [sep] + b;
    if a == [] {
      assert s[1..] == b;
    } else {
      assert s[1..] == a[1..] + [sep] + b;
      SplitPrefix(a[1..], sep, b);
      assert [s[0]] + a[1..] == a;
    }
  }

  /** A string without the separator splits into itself alone. */
  lemma {:induction false} SplitWithout(s: string, sep: char)
    requires sep !in s
    ensures Split(s, sep) == [s]
  {
    if s != [] {
      SplitWithout(s[1..], sep);
      assert [s[0]] + s[1..] == s;
    }
  }

  /**
    What app.js reads from `v.split('|')`: there are at least two pieces
    exactly when `v` contains the separator; the first piece is the text
    before its first occurrence and the others, joined back, are the text
    after it.
  */
  lemma {:induction false} SplitAtFirst(s: string, sep: char)
    ensures |Split(s, sep)| >= 2 <==> sep in s
    ensures sep in s ==>
      var i := IndexOf(s, sep);
      Split(s, sep)[0] == s[..i] && Join(Split(s, sep)[1..], sep) == s[i + 1..]
  {
    if sep in s {
      var i := IndexOf(s, sep);
      var before, after := s[..i], s[i + 1..];
      assert s == before + [sep] + after;
      SplitPrefix(before, sep, after);
      var rest := Split(after, sep);
      assert Split(s, sep) == [before] + rest;
      assert Split(s, sep)[1..] == rest;
    } else {
      SplitWithout(s, sep);
    }
  }

  /**
    Splitting undoes joining: pieces free of the separator are recovered
    from their join.
  */
  lemma {:induction false} SplitJoin(parts: seq<string>, sep: char)
    requires |parts| >= 1
    requires forall i :: 0 <= i < |parts| ==> sep !in parts[i]
    ensures Split(Join(parts, sep), sep) == parts
  {
    if |parts| == 1 {
      SplitWithout(parts[0], sep);
    } else {
      SplitJoin(parts[1..], sep);
      SplitPrefix(parts[0], sep, Join(parts[1..], sep));
      assert parts == [parts[0]] + parts[1..];
    }
  }

  /** Joining distributes over concatenation of non-empty lists of pieces. */
  lemma {:induction false} JoinAppend(a: seq<string>, b: seq<string>, sep: char)
    requires |a| >= 1 && |b| >= 1
    ensures Join(a + b, sep) == Join(a, sep) + [sep] + Join(b, sep)
  {
    if |a| == 1 {
      assert (a + b)[1..] == b;
    } else {
      assert (a + b)[1..] == a[1..] + b;
      JoinAppend(a[1..], b, sep);
    }
  }

  /** The first occurrence of `c` in `a + [c] + b`, when `a` lacks it, is right after `a`. */
  lemma {:induction false} IndexOfAfter(a: string, c: char, b: string)
    requires c !in a
    ensures IndexOf(a + [c] + b, c) == |a|
  {
    var s := a + [c] + b;
    var i := IndexOf(s, c);
    assert forall k :: 0 <= k < |a| ==> s[k] == a[k];
    assert forall k :: 0 <= k < i ==> s[..i][k] == s[k];
    assert s[|a|] == c;
  }

  /** Splitting at a separator placed between two strings splits each of them on its own. */
  lemma {:induction false} SplitAppend(x: string, sep: char, y: string)
    ensures Split(x + [sep] + y, sep) == Split(x, sep) + Split(y, sep)
  {
    if x == [] {
      assert x + [sep] + y == [sep] + y;
      assert ([sep] + y)[1..] == y;
    } else {
      var t := x[1..] + [sep] + y;
      assert x + [sep] + y == [x[0]] + t;
      assert ([x[0]] + t)[1..] == t;
      SplitAppend(x[1..], sep, y);
      var a, b := Split(x[1..], sep), Split(y, sep);
      if x[0] == sep {
        AppendAssoc([[]], a, b);
      } else {
        assert (a + b)[0] == a[0] && (a + b)[1..] == a[1..] + b;
        AppendAssoc([[x[0]] + a[0]], a[1..], b);
      }
    }
  }

  /** A character that is not the separator and occurs in no piece does not occur in the join. */
  lemma {:induction false} JoinWithout(parts: seq<string>, sep: char, c: char)
    requires c != sep
    requires forall i :: 0 <= i < |parts| ==> c !in parts[i]
    ensures c !in Join(parts, sep)
  {
    if |parts| > 1 {
      JoinWithout(parts[1..], sep, c);
    }
  }

  /** Joining pieces the first of which is non-empty gives a non-empty string. */
  lemma {:induction false} JoinNonEmpty(parts: seq<string>, sep: char)
    requires |parts| >= 1 && parts[0] != []
    ensures Join(parts, sep) != []
  {
  }

  // ---------------------------------------------------------------------------
  // trim
  // ---------------------------------------------------------------------------

  /**
    The characters `String.prototype.trim` removes: WhiteSpace (tab, vertical
    tab, form feed, zero width no-break space and the Space_Separator
    category) and LineTerminator, as ECMA-262 section 12.2 and 12.3 define them.
  */
  predicate IsJsWhitespace(c: char)
  {
    || c == '\t' || c == '\n' || c == '\U{B}' || c == '\U{C}' || c == '\r'
    || c == ' ' || c == '\U{A0}' || c == '\U{1680}'
    || ('\U{2000}' <= c <= '\U{200A}')
    || c == '\U{2028}' || c == '\U{2029}' || c == '\U{202F}' || c == '\U{205F}'
    || c == '\U{3000}' || c == '\U{FEFF}'
  }

  /** A string that `trim` leaves as it is. */
  predicate IsTrimmed(s: string)
  {
    s == [] || (!IsJsWhitespace(s[0]) && !IsJsWhitespace(s[|s| - 1]))
  }

  /** `r` sits in `s` at offset `i`, with only whitespace before and after it. */
  predicate IsSliceBetweenWhitespace(s: string, i: nat, r: string)
  {
    && i + |r| <= |s| && r == s[i..i + |r|]
    && (forall k :: 0 <= k < i ==> IsJsWhitespace(s[k]))
    && (forall k :: i + |r| <= k < |s| ==> IsJsWhitespace(s[k]))
  }

  /** The length of the run of whitespace at the front of `s`. */
  function LeadingSpace(s: string): (n: nat)
    ensures n <= |s|
    ensures forall k :: 0 <= k < n ==> IsJsWhitespace(s[k])
    ensures n == |s| || !IsJsWhitespace(s[n])
  {
    if s != [] && IsJsWhitespace(s[0]) then 1 + LeadingSpace(s[1..]) else 0
  }

  /** Drops trailing whitespace: the result is the prefix before a run of whitespace. */
  function TrimEnd(s: string): (r: string)
    ensures |r| <= |s| && r == s[..|r|]
    ensures r == [] || !IsJsWhitespace(r[|r| - 1])
    ensures forall k :: |r| <= k < |s| ==> IsJsWhitespace(s[k])
  {
    if s != [] && IsJsWhitespace(s[|s| - 1]) then TrimEnd(s[..|s| - 1]) else s
  }

  /**
    `String.prototype.trim`: the result is the slice of `s` after its
    leading whitespace; it neither starts nor ends with whitespace, and only
    whitespace was cut on either side.
  */
  function Trim(s: string): (r: string)
    ensures IsTrimmed(r)
    ensures IsSliceBetweenWhitespace(s, LeadingSpace(s), r)
  {
    var r := TrimEnd(s[LeadingSpace(s)..]);
    assert r != [] ==> r[0] == s[LeadingSpace(s)];
    r
  }

  /** `trim` changes exactly the strings that start or end with whitespace. */
  lemma {:induction false} TrimIdentity(s: string)
    ensures Trim(s) == s <==> IsTrimmed(s)
  {
  }
}
