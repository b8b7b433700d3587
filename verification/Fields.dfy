/** Splitting the data of a sentence at its commas, as a function on text and
    its laws (src/nmea-parser.c). */
module Fields {
  import opened Seqs
  import opened Text

  const DELIMITER := ','

  predicate HasComma(t: string) {
    Index(t, DELIMITER) < |t|
  }

  lemma CommaIn(t: string)
    ensures HasComma(t) <==> DELIMITER in t
  {
    IndexIsFirst(t, DELIMITER);
  }

  function First(t: string): string {
    t[..Index(t, DELIMITER)]
  }

  function After(t: string): (r: string)
    ensures t != "" ==> |r| < |t|
  {
    if HasComma(t) then t[Index(t, DELIMITER) + 1..] else ""
  }

  /** The fields that split_sentence finds when it has room for n of them. */
  function Split(t: string, n: nat): seq<string>
    decreases n, 0
  {
    if t == "" || n == 0 then []
    else if !HasComma(t) then [t]
    else [First(t)] + SplitRest(After(t), n - 1)
  }

  /** What follows a comma: a blank last field is taken whatever room is left. */
  function SplitRest(t: string, n: nat): seq<string>
    decreases n, 1
  {
    if t == "" then [""] else Split(t, n)
  }

  /** The text afterwards: the first n commas have become NUL. */
  function Blank(t: string, n: nat): (b: string)
    ensures |b| == |t|
    decreases n
  {
    if n == 0 || !HasComma(t) then t
    else First(t) + [NUL] + Blank(After(t), n - 1)
  }

  lemma BlankStep(t: string, n: nat)
    requires HasComma(t) && n > 0
    ensures Blank(t, n) == First(t) + [NUL] + Blank(After(t), n - 1)
  {
  }

  predicate SameOrNul(w: string, t: string, i: nat) {
    i < |w| && i < |t| && (w[i] == t[i] || w[i] == NUL)
  }

  lemma AtOfParts(t: string, first: string, after: string, b: string, i: nat)
    requires t == first + [DELIMITER] + after && |b| == |after| && i < |t|
    requires i > |first| ==> SameOrNul(b, after, i - |first| - 1)
    ensures SameOrNul(first + [NUL] + b, t, i)
  {
  }

  lemma BlankAtStep(t: string, n: nat, i: nat)
    requires HasComma(t) && n > 0 && i < |t|
    requires i > |First(t)| ==> SameOrNul(Blank(After(t), n - 1), After(t), i - |First(t)| - 1)
    ensures SameOrNul(Blank(t, n), t, i)
  {
    Cut(t);
    BlankStep(t, n);
    AtOfParts(t, First(t), After(t), Blank(After(t), n - 1), i);
  }

  lemma {:induction false} BlankAt(t: string, n: nat, i: nat)
    requires i < |t|
    ensures SameOrNul(Blank(t, n), t, i)
    decreases n
  {
    if n > 0 && HasComma(t) {
      if i > |First(t)| {
        BlankAt(After(t), n - 1, i - |First(t)| - 1);
      }
      BlankAtStep(t, n, i);
    }
  }

  /** Blanking writes nothing but NULs. */
  lemma BlankWritesNuls(t: string, n: nat)
    ensures OnlyNuls(Blank(t, n), t)
  {
    forall i | 0 <= i < |t|
      ensures Blank(t, n)[i] == t[i] || Blank(t, n)[i] == NUL
    {
      BlankAt(t, n, i);
    }
  }

  function Join(fields: seq<string>): string {
    if fields == [] then ""
    else if |fields| == 1 then fields[0]
    else fields[0] + [DELIMITER] + Join(fields[1..])
  }

  function Commas(t: string): nat
    decreases |t|
  {
    if HasComma(t) then 1 + Commas(After(t)) else 0
  }

  predicate CommaFree(fields: seq<string>) {
    forall i :: 0 <= i < |fields| ==> !HasComma(fields[i])
  }

  predicate EndsInComma(t: string) {
    t != "" && t[|t| - 1] == DELIMITER
  }

  lemma Cut(t: string)
    requires HasComma(t)
    ensures t == First(t) + [DELIMITER] + After(t)
    ensures !HasComma(First(t))
  {
    IndexIsFirst(t, DELIMITER);
    CommaIn(First(t));
  }

  lemma CutAt(a: string, b: string)
    requires !HasComma(a)
    ensures var t := a + [DELIMITER] + b; HasComma(t) && First(t) == a && After(t) == b
  {
    var t := a + [DELIMITER] + b;
    CommaIn(a);
    assert t[..|a|] == a && t[|a|] == DELIMITER;
    IndexOfFirst(t, DELIMITER, |a|);
  }

  lemma EndsLater(t: string)
    requires HasComma(t)
    ensures EndsInComma(t) <==> After(t) == "" || EndsInComma(After(t))
  {
    Cut(t);
  }

  lemma EndHasComma(t: string)
    requires EndsInComma(t)
    ensures HasComma(t)
  {
    CommaIn(t);
  }

  lemma JoinCons(head: string, fields: seq<string>)
    requires fields != []
    ensures Join([head] + fields) == head + [DELIMITER] + Join(fields)
  {
    assert ([head] + fields)[1..] == fields;
  }

  lemma {:induction false} SplitCounts(t: string, n: nat)
    requires t != "" && Commas(t) < n
    ensures |Split(t, n)| == Commas(t) + 1
    ensures CommaFree(Split(t, n))
    decreases n
  {
    CommaIn("");
    if HasComma(t) {
      Cut(t);
      if After(t) != "" {
        SplitCounts(After(t), n - 1);
      }
    }
  }

  lemma JoinStep(t: string, n: nat)
    requires HasComma(t) && n > 0
    requires SplitRest(After(t), n - 1) != [] && Join(SplitRest(After(t), n - 1)) == After(t)
    ensures Join(Split(t, n)) == t
  {
    Cut(t);
    JoinCons(First(t), SplitRest(After(t), n - 1));
  }

  lemma {:induction false} SplitJoins(t: string, n: nat)
    requires t != "" && Commas(t) < n
    ensures Join(Split(t, n)) == t
    decreases n
  {
    if HasComma(t) {
      if After(t) != "" {
        SplitCounts(After(t), n - 1);
        SplitJoins(After(t), n - 1);
      }
      JoinStep(t, n);
    }
  }

  /** With fewer commas than room, nothing is lost: the fields are comma-free
      and joined by commas they are the text, blank ones included. */
  lemma SplitKeepsText(t: string, n: nat)
    requires t != "" && Commas(t) < n
    ensures |Split(t, n)| == Commas(t) + 1
    ensures CommaFree(Split(t, n))
    ensures Join(Split(t, n)) == t
  {
    SplitCounts(t, n);
    SplitJoins(t, n);
  }

  /** Only the list of one blank field is joined to the empty text. */
  lemma JoinNotEmpty(fields: seq<string>)
    requires fields != [] && fields != [""]
    ensures Join(fields) != ""
  {
    if |fields| == 1 {
      assert fields == [fields[0]];
    }
  }

  lemma SplitOfCons(head: string, rest: seq<string>, n: nat)
    requires !HasComma(head) && rest != [] && n > 0
    ensures Split(Join([head] + rest), n) == [head] + SplitRest(Join(rest), n - 1)
  {
    JoinCons(head, rest);
    CutAt(head, Join(rest));
  }

  /** Joined fields come back from the split in order, whatever is blank. */
  lemma {:induction false} SplitOfJoin(fields: seq<string>, n: nat)
    requires CommaFree(fields) && fields != [] && fields != [""] && |fields| <= n
    ensures Split(Join(fields), n) == fields
    decreases n
  {
    if |fields| == 1 {
      JoinNotEmpty(fields);
    } else {
      var rest := fields[1..];
      assert fields == [fields[0]] + rest;
      SplitOfCons(fields[0], rest, n);
      if rest == [""] {
        assert SplitRest(Join(rest), n - 1) == rest;
      } else {
        JoinNotEmpty(rest);
        SplitOfJoin(rest, n - 1);
      }
    }
  }

  lemma SplitOfOne(field: string, n: nat)
    requires !HasComma(field) && field != "" && n > 0
    ensures Split(Join([field]), n) == [field]
  {
  }

  lemma RestOfJoin(rest: seq<string>, n: nat)
    requires rest != []
    ensures rest == [""] ==> SplitRest(Join(rest), n) == rest
    ensures rest != [""] ==> SplitRest(Join(rest), n) == Split(Join(rest), n)
  {
    if rest != [""] {
      JoinNotEmpty(rest);
    }
  }

  /** Of joined fields, however many, those that there is room for come back. */
  lemma {:induction false} SplitAtOfJoin(fields: seq<string>, n: nat, i: nat)
    requires CommaFree(fields) && fields != [""] && i < |fields| && i < n
    ensures i < |Split(Join(fields), n)| && Split(Join(fields), n)[i] == fields[i]
    decreases n
  {
    if |fields| == 1 {
      assert fields == [fields[0]];
      SplitOfOne(fields[0], n);
    } else {
      var first, rest := fields[0], fields[1..];
      assert fields == [first] + rest;
      SplitOfCons(first, rest, n);
      RestOfJoin(rest, n - 1);
      if i > 0 && rest != [""] {
        SplitAtOfJoin(rest, n - 1, i - 1);
      }
      AtBehind(first, SplitRest(Join(rest), n - 1), i);
    }
  }

  lemma AtBehind(first: string, rest: seq<string>, i: nat)
    requires i <= |rest|
    ensures ([first] + rest)[i] == if i == 0 then first else rest[i - 1]
  {
  }

  lemma {:induction false} CommasOfJoin(fields: seq<string>)
    requires CommaFree(fields) && fields != []
    ensures Commas(Join(fields)) == |fields| - 1
    decreases |fields|
  {
    if |fields| > 1 {
      CutAt(fields[0], Join(fields[1..]));
      CommasOfJoin(fields[1..]);
    }
  }

  /** The room for n fields is exceeded, by one blank field, exactly for a text
      of n commas that ends in one. */
  lemma {:induction false} SplitRoom(t: string, n: nat)
    requires 1 <= n
    ensures |Split(t, n)| <= n + 1
    ensures |Split(t, n)| > n <==> Commas(t) == n && EndsInComma(t)
    decreases n
  {
    if HasComma(t) {
      EndsLater(t);
      if After(t) != "" {
        if n > 1 {
          SplitRoom(After(t), n - 1);
        } else if EndsInComma(After(t)) {
          EndHasComma(After(t));
        }
      }
    } else if EndsInComma(t) {
      EndHasComma(t);
    }
  }

  /** A text with more commas gives the first n of all its fields. */
  lemma {:induction false} SplitTruncates(t: string, n: nat)
    requires 1 <= n <= Commas(t) && |Split(t, n)| <= n
    ensures |Split(t, n)| == n
    ensures Split(t, n) <= Split(t, Commas(t) + 1)
    decreases n
  {
    if After(t) != "" && n > 1 {
      SplitTruncates(After(t), n - 1);
    }
  }

  /** Where the fields of a text begin that itself begins at base. */
  function Offsets(t: string, base: nat, n: nat): seq<nat>
    decreases n, 0
  {
    if t == "" || n == 0 then []
    else if !HasComma(t) then [base]
    else [base] + OffsetsRest(After(t), base + |First(t)| + 1, n - 1)
  }

  function OffsetsRest(t: string, base: nat, n: nat): seq<nat>
    decreases n, 1
  {
    if t == "" then [base] else Offsets(t, base, n)
  }

  lemma {:induction false} OffsetsCount(t: string, base: nat, n: nat)
    ensures |Offsets(t, base, n)| == |Split(t, n)|
    decreases n
  {
    if HasComma(t) && n > 0 && After(t) != "" {
      OffsetsCount(After(t), base + |First(t)| + 1, n - 1);
    }
  }

  /** A field lies at o in a text and a NUL ends it. */
  predicate LiesAt(b: string, o: nat, field: string) {
    o + |field| < |b| && b[o..o + |field|] == field && b[o + |field|] == NUL
  }

  lemma LiesFirst(pre: string, field: string, more: string)
    ensures LiesAt(pre + field + [NUL], |pre|, field)
    ensures LiesAt(pre + field + [NUL] + more + [NUL], |pre|, field)
  {
  }

  lemma BlankOfCons(pre: string, t: string, n: nat)
    requires HasComma(t) && n > 0
    ensures pre + Blank(t, n) + [NUL] == pre + First(t) + [NUL] + Blank(After(t), n - 1) + [NUL]
  {
  }

  lemma OffsetsCons(t: string, base: nat, next: nat, n: nat, i: nat)
    requires HasComma(t) && n > 0 && i < |SplitRest(After(t), n - 1)|
    requires next == base + |First(t)| + 1
    ensures var later := OffsetsRest(After(t), next, n - 1);
            && |Offsets(t, base, n)| == |Split(t, n)| && i + 1 < |Split(t, n)|
            && |later| == |SplitRest(After(t), n - 1)|
            && Offsets(t, base, n)[i + 1] == later[i]
            && Split(t, n)[i + 1] == SplitRest(After(t), n - 1)[i]
  {
    OffsetsCount(t, base, n);
    OffsetsCount(After(t), next, n - 1);
  }

  lemma FirstReadsBack(pre: string, base: nat, t: string, n: nat)
    requires base == |pre| && t != "" && n > 0
    ensures Offsets(t, base, n) != [] && Split(t, n) != []
    ensures LiesAt(pre + Blank(t, n) + [NUL], Offsets(t, base, n)[0], Split(t, n)[0])
  {
    if HasComma(t) {
      BlankOfCons(pre, t, n);
      LiesFirst(pre, First(t), Blank(After(t), n - 1));
    } else {
      LiesFirst(pre, t, "");
    }
  }

  /** In the blanked text, whatever stands before it, each field lies at its
      offset and a NUL ends it. */
  lemma {:induction false} FieldsReadBack(pre: string, base: nat, t: string, n: nat, i: nat)
    requires base == |pre| && i < |Split(t, n)|
    ensures |Offsets(t, base, n)| == |Split(t, n)|
    ensures LiesAt(pre + Blank(t, n) + [NUL], Offsets(t, base, n)[i], Split(t, n)[i])
    decreases n, 0
  {
    if i == 0 {
      OffsetsCount(t, base, n);
      FirstReadsBack(pre, base, t, n);
    } else {
      var pre', next := pre + First(t) + [NUL], base + |First(t)| + 1;
      RestReadsBack(pre', next, After(t), n - 1, i - 1);
      BlankOfCons(pre, t, n);
      OffsetsCons(t, base, next, n, i - 1);
    }
  }

  lemma {:induction false} RestReadsBack(pre: string, base: nat, t: string, n: nat, i: nat)
    requires base == |pre| && i < |SplitRest(t, n)|
    ensures |OffsetsRest(t, base, n)| == |SplitRest(t, n)|
    ensures LiesAt(pre + Blank(t, n) + [NUL], OffsetsRest(t, base, n)[i], SplitRest(t, n)[i])
    decreases n, 1
  {
    if t == "" {
      LiesFirst(pre, "", "");
    } else {
      FieldsReadBack(pre, base, t, n, i);
    }
  }

  lemma {:induction false} SplitKeepsOut(t: string, n: nat, i: nat, c: char)
    requires i < |Split(t, n)| && c !in t
    ensures c !in Split(t, n)[i]
    decreases n
  {
    if HasComma(t) {
      Cut(t);
      if i > 0 && After(t) != "" {
        SplitKeepsOut(After(t), n - 1, i - 1, c);
      }
    }
  }

  /** A field stands at o in a text, with a comma or nothing behind it. */
  predicate StandsAt(b: string, o: nat, field: string) {
    o + |field| <= |b| && b[o..o + |field|] == field && (o + |field| < |b| ==> b[o + |field|] == DELIMITER)
  }

  lemma FirstStands(pre: string, t: string, n: nat)
    requires t != "" && n > 0
    ensures Split(t, n) != [] && StandsAt(pre + t, |pre|, Split(t, n)[0])
  {
    if HasComma(t) {
      Cut(t);
    }
  }

  lemma BlankStands(pre: string, t: string)
    ensures StandsAt(pre + t, |pre + t|, "")
  {
  }

  lemma CutMoves(pre: string, t: string)
    requires HasComma(t)
    ensures pre + First(t) + [DELIMITER] + After(t) == pre + t
  {
    Cut(t);
  }

  /** In the text itself each field stands at its offset. */
  lemma {:induction false} FieldsStand(pre: string, base: nat, t: string, n: nat, i: nat)
    requires base == |pre| && i < |Split(t, n)|
    ensures |Offsets(t, base, n)| == |Split(t, n)|
    ensures StandsAt(pre + t, Offsets(t, base, n)[i], Split(t, n)[i])
    decreases n, 0
  {
    OffsetsCount(t, base, n);
    if i == 0 {
      FirstStands(pre, t, n);
    } else {
      var pre', next := pre + First(t) + [DELIMITER], base + |First(t)| + 1;
      RestStands(pre', next, After(t), n - 1, i - 1);
      CutMoves(pre, t);
      OffsetsCons(t, base, next, n, i - 1);
    }
  }

  lemma {:induction false} RestStands(pre: string, base: nat, t: string, n: nat, i: nat)
    requires base == |pre| && i < |SplitRest(t, n)|
    ensures |OffsetsRest(t, base, n)| == |SplitRest(t, n)|
    ensures StandsAt(pre + t, OffsetsRest(t, base, n)[i], SplitRest(t, n)[i])
    decreases n, 1
  {
    if t == "" {
      BlankStands(pre, t);
    } else {
      FieldsStand(pre, base, t, n, i);
    }
  }
}
