/** The field-selection clause built for the "find by id" reads of users and
    topics.

    The `fields` query parameter is split on `;`. Each segment that is not
    empty and is not exactly `password` contributes ` +segment` to a
    left fold that starts from the empty string. The user read uses the
    fold as it is. The topic read puts one `+` in front of it.
 */
module FieldSelection {

  /** The one field the clause never asks for. */
  const Password: string := "password"

  /** String splitting on a one-character separator: the pieces between
      separators, in order, including empty ones; the empty string gives one
      empty piece. */
  function Split(s: string, sep: char): (parts: seq<string>)
    ensures |parts| >= 1
    ensures forall i :: 0 <= i < |parts| ==> sep !in parts[i]
    decreases |s|
  {
    if |s| == 0 then [""]
    else
      var rest := Split(s[1..], sep);
      if s[0] == sep then [""] + rest
      else [[s[0]] + rest[0]] + rest[1..]
  }

  /** There is one more piece than there are separators in the input. */
  lemma {:induction false} SplitCount(s: string, sep: char)
    ensures |Split(s, sep)| == multiset(s)[sep] + 1
    decreases |s|
  {
    if |s| != 0 {
      assert s == [s[0]] + s[1..];
      SplitCount(s[1..], sep);
    }
  }

  /** Every character of every piece comes from the input. */
  lemma {:induction false} SplitPiecesFromInput(s: string, sep: char)
    ensures forall i, c :: 0 <= i < |Split(s, sep)| && c in Split(s, sep)[i] ==> c in s
    decreases |s|
  {
    if |s| != 0 {
      SplitPiecesFromInput(s[1..], sep);
      var rest := Split(s[1..], sep);
      var parts := Split(s, sep);
      forall i, c | 0 <= i < |parts| && c in parts[i]
        ensures c in s
      {
        assert s == [s[0]] + s[1..];
        if s[0] == sep {
          assert parts[i] == ([""] + rest)[i];
          if i > 0 {
            assert parts[i] == rest[i - 1];
          }
        } else if i == 0 {
          assert parts[0] == [s[0]] + rest[0];
        } else {
          assert parts[i] == rest[i];
        }
      }
    }
  }

  /** The pieces glued back together with the separator between neighbours. */
  function Join(parts: seq<string>, sep: char): string
    requires |parts| >= 1
    decreases |parts|
  {
    if |parts| == 1 then parts[0]
    else parts[0] + [sep] + Join(parts[1..], sep)
  }

  /** Splitting loses nothing: joining the pieces gives back the input. */
  lemma {:induction false} JoinSplit(s: string, sep: char)
    ensures Join(Split(s, sep), sep) == s
    decreases |s|
  {
    if |s| != 0 {
      JoinSplit(s[1..], sep);
      var rest := Split(s[1..], sep);
      var parts := Split(s, sep);
      if s[0] == sep {
        assert parts == [""] + rest;
        assert parts[1..] == rest;
        assert Join(parts, sep) == "" + [sep] + Join(rest, sep);
      } else {
        assert parts == [[s[0]] + rest[0]] + rest[1..];
        if |rest| == 1 {
          assert Join(parts, sep) == [s[0]] + rest[0];
        } else {
          assert parts[1..] == rest[1..];
          assert Join(parts, sep) == ([s[0]] + rest[0]) + [sep] + Join(rest[1..], sep);
          assert Join(rest, sep) == rest[0] + [sep] + Join(rest[1..], sep);
        }
      }
      assert s == [s[0]] + s[1..];
    }
  }

  /** Splitting a string whose first piece is `a` (no separator inside). */
  lemma {:induction false} SplitPrefix(a: string, b: string, sep: char)
    requires sep !in a
    ensures Split(a + b, sep) == [a + Split(b, sep)[0]] + Split(b, sep)[1..]
    decreases |a|
  {
    if |a| == 0 {
      assert a + b == b;
      assert a + Split(b, sep)[0] == Split(b, sep)[0];
    } else {
      var sb := Split(b, sep);
      assert (a + b)[0] == a[0];
      assert (a + b)[1..] == a[1..] + b;
      SplitPrefix(a[1..], b, sep);
      var rest := Split(a[1..] + b, sep);
      assert rest == [a[1..] + sb[0]] + sb[1..];
      assert rest[0] == a[1..] + sb[0] && rest[1..] == sb[1..];
      assert Split(a + b, sep) == [[a[0]] + rest[0]] + rest[1..];
      assert [a[0]] + (a[1..] + sb[0]) == a + sb[0];
    }
  }

  /** Splitting inverts joining, for pieces that hold no separator. */
  lemma {:induction false} SplitJoin(parts: seq<string>, sep: char)
    requires |parts| >= 1
    requires forall i :: 0 <= i < |parts| ==> sep !in parts[i]
    ensures Split(Join(parts, sep), sep) == parts
    decreases |parts|
  {
    if |parts| == 1 {
      SplitPrefix(parts[0], "", sep);
      assert parts[0] + "" == parts[0];
    } else {
      var tail := Join(parts[1..], sep);
      SplitJoin(parts[1..], sep);
      assert Split([sep] + tail, sep) == [""] + Split(tail, sep);
      assert parts[0] + [sep] + tail == parts[0] + ([sep] + tail);
      SplitPrefix(parts[0], [sep] + tail, sep);
      assert parts[0] + "" == parts[0];
    }
  }

  /** A segment survives the filter: it is not empty and not exactly the
      password field. The comparison is exact, so `Password` or ` password`
      survive. */
  predicate Selectable(segment: string): (passes: bool)
    ensures passes <==> segment !in {"", Password}
  {
    segment != "" && segment != Password
  }

  /** The surviving segments, in input order. */
  function Kept(segments: seq<string>): (kept: seq<string>)
    ensures |kept| <= |segments|
    ensures forall i :: 0 <= i < |kept| ==> Selectable(kept[i])
    ensures forall s :: s in kept <==> s in segments && Selectable(s)
  {
    if |segments| == 0 then []
    else (if Selectable(segments[0]) then [segments[0]] else []) + Kept(segments[1..])
  }

  /** Filtering distributes over concatenation, so the survivors keep the
      relative order they had in the input. */
  lemma {:induction false} KeptAppend(a: seq<string>, b: seq<string>)
    ensures Kept(a + b) == Kept(a) + Kept(b)
    decreases |a|
  {
    if |a| != 0 {
      assert (a + b)[0] == a[0];
      assert (a + b)[1..] == a[1..] + b;
      KeptAppend(a[1..], b);
      var head := if Selectable(a[0]) then [a[0]] else [];
      assert Kept(a + b) == head + Kept(a[1..] + b);
      assert Kept(a) == head + Kept(a[1..]);
    } else {
      assert a + b == b;
    }
  }

  /** The clause for a list of surviving fields: ` +field` for each, in order. */
  function Render(fields: seq<string>): string
  {
    if |fields| == 0 then "" else " +" + fields[0] + Render(fields[1..])
  }

  /** One step of the fold: append ` +segment` when the segment survives. */
  function Step(pre: string, segment: string): (acc: string)
    ensures |acc| >= |pre| && acc[..|pre|] == pre
    ensures |acc| > |pre| <==> Selectable(segment)
    ensures Selectable(segment) ==> acc[|pre|..] == " +" + segment
  {
    if Selectable(segment) then pre + " +" + segment else pre
  }

  /** The left fold over the segments, from the accumulator `pre`. */
  function Fold(pre: string, segments: seq<string>): (acc: string)
    ensures |acc| >= |pre| && acc[..|pre|] == pre
    decreases |segments|
  {
    if |segments| == 0 then pre
    else
      var next := Step(pre, segments[0]);
      var acc := Fold(next, segments[1..]);
      assert acc[..|pre|] == acc[..|next|][..|pre|];
      acc
  }

  /** The fold renders exactly the surviving segments, after the seed. */
  lemma {:induction false} FoldRendersKept(pre: string, segments: seq<string>)
    ensures Fold(pre, segments) == pre + Render(Kept(segments))
    decreases |segments|
  {
    if |segments| != 0 {
      var s := segments[0];
      var rest := Kept(segments[1..]);
      FoldRendersKept(Step(pre, s), segments[1..]);
      assert Fold(pre, segments) == Step(pre, s) + Render(rest);
      if Selectable(s) {
        var k := Kept(segments);
        assert k == [s] + rest;
        assert k[0] == s && k[1..] == rest;
        assert Render(k) == " +" + s + Render(rest);
        assert Step(pre, s) == pre + " +" + s;
      } else {
        assert Kept(segments) == [] + rest;
        assert [] + rest == rest;
        assert Step(pre, s) == pre;
      }
    }
  }

  /** The segments of a `fields` query parameter. */
  function Segments(fields: string): (segments: seq<string>)
    ensures |segments| == multiset(fields)[';'] + 1
    ensures Join(segments, ';') == fields
    ensures forall i :: 0 <= i < |segments| ==> ';' !in segments[i]
  {
    JoinSplit(fields, ';');
    SplitCount(fields, ';');
    Split(fields, ';')
  }

  /** The selection clause of the user read. */
  function UserSelection(fields: string): (clause: string)
    ensures clause == Render(Kept(Segments(fields)))
    ensures clause == "" <==> Kept(Segments(fields)) == []
  {
    FoldRendersKept("", Segments(fields));
    Fold("", Segments(fields))
  }

  /** The selection clause of the topic read: a leading `+` before the fold. */
  function TopicSelection(fields: string): (clause: string)
    ensures |clause| >= 1 && clause[0] == '+'
    ensures clause[1..] == Render(Kept(Segments(fields)))
    ensures clause == "+" <==> Kept(Segments(fields)) == []
  {
    FoldRendersKept("", Segments(fields));
    "+" + Fold("", Segments(fields))
  }

  /** The rendered clause as the whitespace-separated directive list: an empty
      leading piece, then `+field` per surviving field. */
  function Directives(fields: seq<string>): (ds: seq<string>)
    ensures |ds| == |fields|
    ensures forall i :: 0 <= i < |ds| ==> ds[i] == "+" + fields[i]
  {
    if |fields| == 0 then [] else ["+" + fields[0]] + Directives(fields[1..])
  }

  /** The rendered clause is the directives joined by single spaces. */
  lemma {:induction false} RenderIsJoin(fields: seq<string>)
    ensures Render(fields) == Join([""] + Directives(fields), ' ')
    decreases |fields|
  {
    if |fields| != 0 {
      RenderIsJoin(fields[1..]);
      var d := Directives(fields);
      var tail := Directives(fields[1..]);
      assert d == ["+" + fields[0]] + tail;
      assert ([""] + d)[1..] == d;
      assert d[1..] == tail;
      if |tail| == 0 {
        assert Render(fields[1..]) == "";
      } else {
        assert ([""] + tail)[1..] == tail;
      }
    }
  }

  /** When no requested field contains a space, reading the user clause back
      as space-separated directives gives exactly one `+field` per surviving
      segment, in input order, after an empty leading piece. */
  lemma UserDirectives(fields: string)
    requires ' ' !in fields
    ensures Split(UserSelection(fields), ' ') == [""] + Directives(Kept(Segments(fields)))
  {
    var kept := Kept(Segments(fields));
    SplitPiecesFromInput(fields, ';');
    RenderIsJoin(kept);
    var parts := [""] + Directives(kept);
    forall i | 0 <= i < |parts|
      ensures ' ' !in parts[i]
    {
      if i > 0 {
        assert parts[i] == "+" + kept[i - 1];
        assert kept[i - 1] in Segments(fields);
      }
    }
    SplitJoin(parts, ' ');
  }

  /** The topic clause read the same way: a lone `+` piece, then `+field`
      per surviving segment, in input order. */
  lemma TopicDirectives(fields: string)
    requires ' ' !in fields
    ensures Split(TopicSelection(fields), ' ') == ["+"] + Directives(Kept(Segments(fields)))
  {
    UserDirectives(fields);
    var user := UserSelection(fields);
    assert TopicSelection(fields) == "+" + user;
    SplitPrefix("+", user, ' ');
    assert "+" + "" == "+";
  }

  /** No directive of either clause asks for the password, when no requested
      field contains a space. */
  lemma PasswordNeverSelected(fields: string)
    requires ' ' !in fields
    ensures "+" + Password !in Split(UserSelection(fields), ' ')
    ensures "+" + Password !in Split(TopicSelection(fields), ' ')
  {
    UserDirectives(fields);
    TopicDirectives(fields);
    var kept := Kept(Segments(fields));
    var ds := Directives(kept);
    forall i | 0 <= i < |ds|
      ensures ds[i] != "+" + Password
    {
      assert ds[i][1..] == kept[i];
      assert ("+" + Password)[1..] == Password;
    }
    assert "+" + Password != "+" && "+" + Password != "";
  }

  /** A single requested field is passed through exactly when it is not the
      exact string `password`; case or spacing variants pass. */
  lemma SingleField(segment: string)
    requires segment != "" && ';' !in segment
    ensures UserSelection(segment) == if segment == Password then "" else " +" + segment
    ensures TopicSelection(segment) == if segment == Password then "+" else "+ +" + segment
  {
    SplitPrefix(segment, "", ';');
    assert segment + "" == segment;
    assert Segments(segment) == [segment];
    assert Kept([segment]) == (if Selectable(segment) then [segment] else []) + Kept([]);
    assert Render([segment]) == " +" + segment + Render([]);
  }

  /** Empty segments contribute nothing: an empty segment anywhere in the
      list leaves the folded clause as it is. */
  lemma EmptySegmentIgnored(before: seq<string>, after: seq<string>)
    ensures Fold("", before + [""] + after) == Fold("", before + after)
  {
    var withEmpty := before + [""] + after;
    FoldRendersKept("", withEmpty);
    FoldRendersKept("", before + after);
    KeptAppend(before + [""], after);
    KeptAppend(before, [""]);
    KeptAppend(before, after);
    var none := Kept([""]);
    assert none == [] + Kept([]);
    assert Kept(before + [""]) == Kept(before);
    assert Kept(withEmpty) == Kept(before + after);
  }

  /** A leading `;` adds only an empty segment, so it changes neither clause. */
  lemma LeadingSeparatorIgnored(fields: string)
    ensures UserSelection(";" + fields) == UserSelection(fields)
    ensures TopicSelection(";" + fields) == TopicSelection(fields)
  {
  }

  /** The empty input and a lone `;` leave no surviving segment and give the
      bare topic clause `+`. */
  lemma NothingSurvives()
    ensures TopicSelection("") == "+"
    ensures TopicSelection(";") == "+"
  {
  }
}
