/**
 Canonical JSON text of a process graph and its hash
 (apps/orbit-openeo/src/provenance.rs, `canonical_json`, `fnv1a_64`, `graph_hash_of`).

 Keys are printed sorted and unescaped, string values escaped. How a number is written
 is a parameter: distinct numbers get distinct texts made of number characters.
 */
module CanonicalJson {
  import opened Wrappers
  import opened Json
  import opened TextOrder

  type Renderer<!N> = N -> string

  predicate IsNumberChar(c: char) {
    '0' <= c <= '9' || c in ['-', '+', '.', 'e', 'E']
  }

  predicate IsNumberText(s: string) {
    s != "" && ('0' <= s[0] <= '9' || s[0] == '-') && forall i :: 0 <= i < |s| ==> IsNumberChar(s[i])
  }

  ghost predicate IsRenderer<N(!new)>(render: Renderer<N>) {
    && (forall n :: IsNumberText(render(n)))
    && (forall m, n :: render(m) == render(n) ==> m == n)
  }

  // ---------------------------------------------------------------- printing

  function HexDigit(n: nat): char
    requires n < 16
  {
    if n < 10 then '0' + n as char else 'a' + (n - 10) as char
  }

  /** One character of a string value as `serde_json` writes it. */
  function EscapeChar(c: char): string {
    if c == '"' then "\\\""
    else if c == '\\' then "\\\\"
    else if c as int == 8 then "\\b"
    else if c as int == 12 then "\\f"
    else if c == '\n' then "\\n"
    else if c == '\r' then "\\r"
    else if c == '\t' then "\\t"
    else if c as int < 32 then "\\u00" + [HexDigit(c as int / 16), HexDigit(c as int % 16)]
    else [c]
  }

  function Escape(s: string): string {
    if s == "" then "" else EscapeChar(s[0]) + Escape(s[1..])
  }

  function HexValue(c: char): Option<nat> {
    if '0' <= c <= '9' then Some(c as nat - '0' as nat)
    else if 'a' <= c <= 'f' then Some(c as nat - 'a' as nat + 10)
    else if 'A' <= c <= 'F' then Some(c as nat - 'A' as nat + 10)
    else None
  }

  /** The character written as a backslash and one letter (section 7 of RFC 8259). */
  function ShortEscape(c: char): Option<char> {
    if c == '"' || c == '\\' || c == '/' then Some(c)
    else if c == 'b' then Some(8 as char)
    else if c == 'f' then Some(12 as char)
    else if c == 'n' then Some(10 as char)
    else if c == 'r' then Some(13 as char)
    else if c == 't' then Some(9 as char)
    else None
  }

  /** The first character that a JSON string stands for, and what follows it; escapes by code up to U+00FF only. */
  function ReadChar(text: string): Option<(char, string)> {
    if text == "" || text[0] == '"' || text[0] as int < 32 then None
    else if text[0] != '\\' then Some((text[0], text[1..]))
    else if |text| >= 2 && ShortEscape(text[1]).Some? then Some((ShortEscape(text[1]).value, text[2..]))
    else if |text| >= 6 && text[1..4] == "u00" && HexValue(text[4]).Some? && HexValue(text[5]).Some?
    then Some(((16 * HexValue(text[4]).value + HexValue(text[5]).value) as char, text[6..]))
    else None
  }

  /** What a JSON string stands for up to its closing quote, and what follows the quote. */
  function ReadString(text: string): Option<(string, string)>
    decreases |text|
  {
    if text != "" && text[0] == '"' then Some(("", text[1..]))
    else
      var c := ReadChar(text);
      if c.None? || |c.value.1| >= |text| then None
      else
        var rest := ReadString(c.value.1);
        if rest.None? then None else Some(([c.value.0] + rest.value.0, rest.value.1))
  }

  lemma EscapeCharReads(c: char, rest: string)
    ensures ReadChar(EscapeChar(c) + rest) == Some((c, rest))
  {
    var e, text := EscapeChar(c), EscapeChar(c) + rest;
    assert text[|e|..] == rest;
    assert forall i :: 0 <= i < |e| ==> text[i] == e[i];
    if |e| == 6 {
      assert text[1..4] == e[1..4] == "u00";
    }
  }

  /** An escaped string read as JSON is the string itself. */
  lemma {:induction false} EscapeReadsBack(s: string, rest: string)
    ensures ReadString(Escape(s) + ("\"" + rest)) == Some((s, rest))
  {
    EscapeStart(s, rest);
    if s != "" {
      var after := Escape(s[1..]) + ("\"" + rest);
      EscapeCharShape(s[0]);
      EscapeCharReads(s[0], after);
      EscapeReadsBack(s[1..], rest);
      assert s == [s[0]] + s[1..];
      hide EscapeChar, Escape, ReadChar;
    } else {
      assert ("\"" + rest)[1..] == rest;
    }
  }

  function InsertField<N(!new)>(f: Field<N>, fields: seq<Field<N>>): seq<Field<N>> {
    if fields == [] || !LexLess(fields[0].key, f.key) then [f] + fields
    else [fields[0]] + InsertField(f, fields[1..])
  }

  /** The fields sorted by key. */
  function SortFields<N(!new)>(fields: seq<Field<N>>): seq<Field<N>> {
    if fields == [] then [] else InsertField(fields[0], SortFields(fields[1..]))
  }

  lemma {:induction false} InsertFieldKeeps<N(!new)>(f: Field<N>, fields: seq<Field<N>>)
    ensures |InsertField(f, fields)| == |fields| + 1
    ensures forall x :: x in InsertField(f, fields) <==> x == f || x in fields
  {
    if fields != [] && LexLess(fields[0].key, f.key) {
      InsertFieldKeeps(f, fields[1..]);
      assert fields == [fields[0]] + fields[1..];
    }
  }

  lemma {:induction false} SortFieldsKeeps<N(!new)>(fields: seq<Field<N>>)
    ensures |SortFields(fields)| == |fields|
    ensures forall x :: x in SortFields(fields) <==> x in fields
  {
    if fields != [] {
      SortFieldsKeeps(fields[1..]);
      InsertFieldKeeps(fields[0], SortFields(fields[1..]));
      assert fields == [fields[0]] + fields[1..];
    }
  }

  lemma SortedFieldCameFrom<N(!new)>(fields: seq<Field<N>>, i: nat) returns (k: nat)
    requires i < |SortFields(fields)|
    ensures k < |fields| && fields[k] == SortFields(fields)[i]
  {
    SortFieldsKeeps(fields);
    var f := SortFields(fields)[i];
    assert f in SortFields(fields);
    k :| 0 <= k < |fields| && fields[k] == f;
  }

  /** The sorted fields of an object are still parts of it. */
  lemma SortedFieldsAreSmaller<N(!new)>(v: Json<N>)
    requires v.Object?
    ensures forall i :: 0 <= i < |SortFields(v.fields)| ==> SortFields(v.fields)[i].value < v
  {
    forall i | 0 <= i < |SortFields(v.fields)|
      ensures SortFields(v.fields)[i].value < v
    {
      var k := SortedFieldCameFrom(v.fields, i);
    }
  }

  function Canonical<N(!new)>(v: Json<N>, render: Renderer<N>): string
    decreases v, 1, 0
  {
    match v
    case Null => "null"
    case Bool(b) => if b then "true" else "false"
    case Number(n) => render(n)
    case String(s) => "\"" + Escape(s) + "\""
    case Array(items) => "[" + CanonicalItems(v, items, true, render) + "]"
    case Object(fields) =>
      SortedFieldsAreSmaller(v);
      "{" + CanonicalFields(v, SortFields(fields), true, render) + "}"
  }

  /** Items separated by commas; `first` says whether the first one goes without. */
  function CanonicalItems<N(!new)>(ghost parent: Json<N>, items: seq<Json<N>>, first: bool, render: Renderer<N>): string
    requires forall i :: 0 <= i < |items| ==> items[i] < parent
    decreases parent, 0, |items|
  {
    if items == [] then ""
    else (if first then "" else ",") + (Canonical(items[0], render) + CanonicalItems(parent, items[1..], false, render))
  }

  function CanonicalFields<N(!new)>(ghost parent: Json<N>, fields: seq<Field<N>>, first: bool, render: Renderer<N>): string
    requires forall i :: 0 <= i < |fields| ==> fields[i].value < parent
    decreases parent, 0, |fields|
  {
    if fields == [] then ""
    else
      (if first then "" else ",") +
      ("\"" + (fields[0].key + ("\":" + (Canonical(fields[0].value, render) + CanonicalFields(parent, fields[1..], false, render)))))
  }

  lemma AppendItem(buf: string, sep: string, child: string, rest: string, close: string)
    ensures ((buf + sep) + child) + rest + close == buf + (sep + (child + rest)) + close
  {
  }

  lemma AppendField(buf: string, sep: string, key: string, child: string, rest: string, close: string)
    ensures ((buf + sep) + "\"" + key + "\"" + ":" + child) + rest + close
         == buf + (sep + ("\"" + (key + ("\":" + (child + rest))))) + close
  {
  }

  lemma ItemPushed<N(!new)>(parent: Json<N>, items: seq<Json<N>>, i: nat, buf: string, child: string, render: Renderer<N>)
    requires i < |items| && forall i :: 0 <= i < |items| ==> items[i] < parent
    requires child == Canonical(items[i], render)
    ensures (if i > 0 then buf + "," else buf) + child + CanonicalItems(parent, items[i + 1..], false, render) + "]"
         == buf + CanonicalItems(parent, items[i..], i == 0, render) + "]"
  {
    hide Canonical;
    assert items[i..][1..] == items[i + 1..];
    AppendItem(buf, if i == 0 then "" else ",", child, CanonicalItems(parent, items[i + 1..], false, render), "]");
    assert buf + "" == buf;
  }

  lemma FieldPushed<N(!new)>(parent: Json<N>, fields: seq<Field<N>>, i: nat, buf: string, child: string, render: Renderer<N>)
    requires i < |fields| && forall i :: 0 <= i < |fields| ==> fields[i].value < parent
    requires child == Canonical(fields[i].value, render)
    ensures (if i > 0 then buf + "," else buf) + "\"" + fields[i].key + "\"" + ":" + child
              + CanonicalFields(parent, fields[i + 1..], false, render) + "}"
         == buf + CanonicalFields(parent, fields[i..], i == 0, render) + "}"
  {
    hide Canonical;
    assert fields[i..][1..] == fields[i + 1..];
    AppendField(buf, if i == 0 then "" else ",", fields[i].key, child, CanonicalFields(parent, fields[i + 1..], false, render), "}");
    assert buf + "" == buf;
  }

  lemma NothingLeft<N(!new)>(parent: Json<N>, first: bool, render: Renderer<N>)
    ensures CanonicalItems(parent, [], first, render) == "" && CanonicalFields(parent, [], first, render) == ""
  {
  }

  /** The printer as loops that push into a buffer. */
  method Print<N(!new)>(v: Json<N>, render: Renderer<N>) returns (buf: string)
    ensures buf == Canonical(v, render)
    decreases v, 1
  {
    match v {
      case Object(fields) =>
        SortedFieldsAreSmaller(v);
        buf := PrintFields(v, SortFields(fields), render);
      case Array(items) => buf := PrintItems(v, items, render);
      case Null => buf := "null";
      case Bool(b) => buf := if b then "true" else "false";
      case Number(n) => buf := render(n);
      case String(s) => buf := "\"" + Escape(s) + "\"";
    }
  }

  method PrintItems<N(!new)>(ghost parent: Json<N>, items: seq<Json<N>>, render: Renderer<N>) returns (buf: string)
    requires forall i :: 0 <= i < |items| ==> items[i] < parent
    ensures buf == "[" + CanonicalItems(parent, items, true, render) + "]"
    decreases parent, 0
  {
    hide Canonical, CanonicalItems;
    buf := "[";
    assert items[0..] == items;
    for i := 0 to |items|
      invariant buf + CanonicalItems(parent, items[i..], i == 0, render) + "]" == "[" + CanonicalItems(parent, items, true, render) + "]"
    {
      ghost var before := buf;
      if i > 0 {
        buf := buf + ",";
      }
      var child := Print(items[i], render);
      buf := buf + child;
      ItemPushed(parent, items, i, before, child, render);
    }
    assert items[|items|..] == [];
    NothingLeft(parent, |items| == 0, render);
    buf := buf + "]";
  }

  method PrintFields<N(!new)>(ghost parent: Json<N>, sorted: seq<Field<N>>, render: Renderer<N>) returns (buf: string)
    requires forall i :: 0 <= i < |sorted| ==> sorted[i].value < parent
    ensures buf == "{" + CanonicalFields(parent, sorted, true, render) + "}"
    decreases parent, 0
  {
    hide Canonical, CanonicalFields;
    buf := "{";
    assert sorted[0..] == sorted;
    for i := 0 to |sorted|
      invariant buf + CanonicalFields(parent, sorted[i..], i == 0, render) + "}" == "{" + CanonicalFields(parent, sorted, true, render) + "}"
    {
      ghost var before := buf;
      if i > 0 {
        buf := buf + ",";
      }
      var child := Print(sorted[i].value, render);
      buf := buf + "\"" + sorted[i].key + "\"" + ":" + child;
      FieldPushed(parent, sorted, i, before, child, render);
    }
    assert sorted[|sorted|..] == [];
    NothingLeft(parent, |sorted| == 0, render);
    buf := buf + "}";
  }

  // ---------------------------------------------------------------- reference

  /** Every object has distinct keys. */
  predicate WellFormed<N(!new)>(v: Json<N>) {
    match v
    case Array(items) => forall i :: 0 <= i < |items| ==> WellFormed(items[i])
    case Object(fields) => Distinct(Keys(fields)) && forall i :: 0 <= i < |fields| ==> WellFormed(fields[i].value)
    case _ => true
  }

  /** No object key contains a quote character. */
  predicate PlainKeys<N(!new)>(v: Json<N>) {
    match v
    case Array(items) => forall i :: 0 <= i < |items| ==> PlainKeys(items[i])
    case Object(fields) => forall i :: 0 <= i < |fields| ==> '"' !in fields[i].key && PlainKeys(fields[i].value)
    case _ => true
  }

  /** Equal up to the order of object keys, at any depth. */
  predicate Same<N(==)>(v: Json<N>, w: Json<N>)
    decreases v
  {
    match v
    case Array(items) =>
      w.Array? && |w.items| == |items| && forall i :: 0 <= i < |items| ==> Same(items[i], w.items[i])
    case Object(fields) =>
      w.Object? && |w.fields| == |fields| &&
      forall i :: 0 <= i < |fields| ==>
        Get(w.fields, fields[i].key).Some? && Same(fields[i].value, Get(w.fields, fields[i].key).value)
    case _ => v == w
  }

  // ------------------------------------------------------------ sorted fields

  predicate StrictlySorted<N(!new)>(fields: seq<Field<N>>) {
    forall i, j :: 0 <= i < j < |fields| ==> LexLess(fields[i].key, fields[j].key)
  }

  /** The same keys in the same order, with the same values up to key order. */
  predicate FieldsSame<N(==)>(f: seq<Field<N>>, h: seq<Field<N>>) {
    |f| == |h| && forall i :: 0 <= i < |f| ==> f[i].key == h[i].key && Same(f[i].value, h[i].value)
  }

  lemma {:induction false} GetAt<N(!new)>(fields: seq<Field<N>>, i: nat)
    requires i < |fields| && Distinct(Keys(fields))
    ensures Get(fields, fields[i].key) == Some(fields[i].value)
  {
    if i > 0 {
      assert Keys(fields)[0] != Keys(fields)[i];
      assert Keys(fields[1..]) == Keys(fields)[1..];
      GetAt(fields[1..], i - 1);
    }
  }

  lemma {:induction false} InsertFieldSorts<N(!new)>(f: Field<N>, fields: seq<Field<N>>)
    requires StrictlySorted(fields) && forall i :: 0 <= i < |fields| ==> fields[i].key != f.key
    ensures StrictlySorted(InsertField(f, fields))
  {
    if fields == [] {
    } else if LexLess(fields[0].key, f.key) {
      InsertFieldSorts(f, fields[1..]);
      InsertFieldKeeps(f, fields[1..]);
      var rest := InsertField(f, fields[1..]);
      forall i | 0 <= i < |rest|
        ensures LexLess(fields[0].key, rest[i].key)
      {
        assert rest[i] in rest;
      }
    } else {
      LexTotal(f.key, fields[0].key);
      forall i | 0 <= i < |fields|
        ensures LexLess(f.key, fields[i].key)
      {
        if i > 0 { LexTransitive(f.key, fields[0].key, fields[i].key); }
      }
    }
  }

  lemma {:induction false} SortFieldsSorts<N(!new)>(fields: seq<Field<N>>)
    requires Distinct(Keys(fields))
    ensures StrictlySorted(SortFields(fields))
  {
    if fields != [] {
      var rest := SortFields(fields[1..]);
      assert Keys(fields[1..]) == Keys(fields)[1..];
      SortFieldsSorts(fields[1..]);
      forall i | 0 <= i < |rest|
        ensures rest[i].key != fields[0].key
      {
        var k := SortedFieldCameFrom(fields[1..], i);
        assert Keys(fields)[0] != Keys(fields)[k + 1];
      }
      InsertFieldSorts(fields[0], rest);
    }
  }

  /** Where field `i` of the object went when sorting. */
  lemma FieldGoesTo<N(!new)>(fields: seq<Field<N>>, i: nat) returns (k: nat)
    requires i < |fields|
    ensures k < |SortFields(fields)| && SortFields(fields)[k] == fields[i]
  {
    SortFieldsKeeps(fields);
    var f := fields[i];
    assert f in fields;
    k :| 0 <= k < |SortFields(fields)| && SortFields(fields)[k] == f;
  }

  /** Objects whose sorted fields agree are equal up to key order. */
  lemma SameFromSorted<N(!new)>(v: Json<N>, w: Json<N>)
    requires v.Object? && w.Object? && WellFormed(v) && WellFormed(w)
    requires FieldsSame(SortFields(v.fields), SortFields(w.fields))
    ensures Same(v, w)
  {
    var f, h := v.fields, w.fields;
    SortFieldsKeeps(f);
    SortFieldsKeeps(h);
    forall i | 0 <= i < |f|
      ensures Get(h, f[i].key).Some? && Same(f[i].value, Get(h, f[i].key).value)
    {
      var p := FieldGoesTo(f, i);
      var j := SortedFieldCameFrom(h, p);
      GetAt(h, j);
    }
  }

  predicate SortedKeys(ks: seq<string>) {
    forall i, j :: 0 <= i < j < |ks| ==> LexLess(ks[i], ks[j])
  }

  lemma LeastKey(ks: seq<string>, ls: seq<string>)
    requires SortedKeys(ks) && SortedKeys(ls) && ks != [] && ls != []
    requires ks[0] in ls && ls[0] in ks
    ensures ks[0] == ls[0]
  {
    var j :| 0 <= j < |ls| && ls[j] == ks[0];
    var m :| 0 <= m < |ks| && ks[m] == ls[0];
    assert j > 0 ==> LexLess(ls[0], ks[0]);
    assert m > 0 ==> LexLess(ks[0], ls[0]);
    LexTotal(ks[0], ls[0]);
  }

  lemma LeastKeyOnlyFirst(ks: seq<string>)
    requires SortedKeys(ks) && ks != []
    ensures ks[0] !in ks[1..]
  {
    LexIrreflexive(ks[0]);
    assert forall i :: 0 <= i < |ks[1..]| ==> LexLess(ks[0], ks[i + 1]) && ks[1..][i] == ks[i + 1];
  }

  /** Two strictly sorted sequences with the same elements are equal. */
  lemma {:induction false} SortedKeysAgree(ks: seq<string>, ls: seq<string>)
    requires SortedKeys(ks) && SortedKeys(ls) && forall k :: k in ks <==> k in ls
    ensures ks == ls
  {
    assert |ls| > 0 ==> ls[0] in ls;
    if ks != [] {
      assert ks[0] in ks;
      LeastKeyAgrees(ks, ls);
      SortedKeysAgree(ks[1..], ls[1..]);
    }
  }

  lemma LeastKeyAgrees(ks: seq<string>, ls: seq<string>)
    requires SortedKeys(ks) && SortedKeys(ls) && ks != [] && ls != [] && forall k :: k in ks <==> k in ls
    ensures ks == [ls[0]] + ks[1..] && ls == [ls[0]] + ls[1..]
    ensures forall k :: k in ks[1..] <==> k in ls[1..]
  {
    hide SortedKeys;
    assert ks[0] in ks && ls[0] in ls;
    LeastKey(ks, ls);
    LeastKeyOnlyFirst(ks);
    LeastKeyOnlyFirst(ls);
    assert ks == [ks[0]] + ks[1..] && ls == [ls[0]] + ls[1..];
    forall k
      ensures k in ks[1..] <==> k in ls[1..]
    {
      assert k in ks <==> k == ks[0] || k in ks[1..];
      assert k in ls <==> k == ls[0] || k in ls[1..];
    }
  }

  /** Objects equal up to key order have the same sorted fields, up to key order in the values. */
  lemma SortedFromSame<N(!new)>(v: Json<N>, w: Json<N>)
    requires v.Object? && w.Object? && WellFormed(v) && WellFormed(w) && Same(v, w)
    ensures FieldsSame(SortFields(v.fields), SortFields(w.fields))
  {
    var f, h := v.fields, w.fields;
    SortFieldsKeeps(f);
    SortFieldsKeeps(h);
    SortedKeysSame(v, w);
    var fs, hs := SortFields(f), SortFields(h);
    forall p | 0 <= p < |fs|
      ensures fs[p].key == hs[p].key && Same(fs[p].value, hs[p].value)
    {
      assert Keys(fs)[p] == Keys(hs)[p];
      var i := SortedFieldCameFrom(f, p);
      var j := SortedFieldCameFrom(h, p);
      GetAt(h, j);
    }
  }

  lemma {:induction false} DistinctSize(ks: seq<string>)
    requires Distinct(ks)
    ensures |set k | k in ks| == |ks|
  {
    if ks != [] {
      var first, others := ks[0], ks[1..];
      DistinctSize(others);
      assert ks == [first] + others;
      assert first !in others;
      SetOfFirst(first, others);
      hide *;
    }
  }

  lemma SetOfFirst(first: string, others: seq<string>)
    requires first !in others
    ensures |set k | k in [first] + others| == |set k | k in others| + 1
  {
    assert (set k | k in [first] + others) == (set k | k in others) + {first};
  }

  /** Distinct keys contained in as many distinct keys are all of them. */
  lemma ContainedKeysAreAll(ks: seq<string>, ls: seq<string>)
    requires Distinct(ks) && Distinct(ls) && |ks| == |ls| && forall k :: k in ks ==> k in ls
    ensures forall k :: k in ls ==> k in ks
  {
    var a, b := set k | k in ks, set k | k in ls;
    DistinctSize(ks);
    DistinctSize(ls);
    assert a <= b && |b - a| == |b| - |a|;
    forall k | k in ls
      ensures k in ks
    {
      assert k in b && k !in b - a;
    }
  }

  lemma SortedKeysAreKeys<N(!new)>(f: seq<Field<N>>)
    ensures forall k :: k in Keys(SortFields(f)) <==> k in Keys(f)
  {
    SortFieldsKeeps(f);
    forall k | k in Keys(SortFields(f))
      ensures k in Keys(f)
    {
      var i :| 0 <= i < |f| && Keys(SortFields(f))[i] == k;
      var j := SortedFieldCameFrom(f, i);
      assert Keys(f)[j] == k;
    }
    forall k | k in Keys(f)
      ensures k in Keys(SortFields(f))
    {
      var i :| 0 <= i < |f| && Keys(f)[i] == k;
      var j := FieldGoesTo(f, i);
      assert Keys(SortFields(f))[j] == k;
    }
  }

  lemma SortedKeysSame<N(!new)>(v: Json<N>, w: Json<N>)
    requires v.Object? && w.Object? && WellFormed(v) && WellFormed(w) && Same(v, w)
    ensures Keys(SortFields(v.fields)) == Keys(SortFields(w.fields))
  {
    var f, h := v.fields, w.fields;
    SortFieldsKeeps(f);
    SortFieldsKeeps(h);
    SortFieldsSorts(f);
    SortFieldsSorts(h);
    SortedKeysAreKeys(f);
    SortedKeysAreKeys(h);
    forall k | k in Keys(f)
      ensures k in Keys(h)
    {
      var i :| 0 <= i < |f| && Keys(f)[i] == k;
      assert Get(h, f[i].key).Some?;
    }
    ContainedKeysAreAll(Keys(f), Keys(h));
    assert SortedKeys(Keys(SortFields(f))) && SortedKeys(Keys(SortFields(h)));
    hide Keys, SortFields, SortedKeys;
    SortedKeysAgree(Keys(SortFields(f)), Keys(SortFields(h)));
  }

  // ------------------------------------------------ key order is immaterial

  lemma {:induction false} SameMeansSameText<N(!new)>(v: Json<N>, w: Json<N>, render: Renderer<N>)
    requires WellFormed(v) && WellFormed(w) && Same(v, w)
    ensures Canonical(v, render) == Canonical(w, render)
    decreases v, 1, 0
  {
    match v
    case Array(items) => SameItemsText(v, items, w, w.items, true, render);
    case Object(fields) =>
      SortedFieldsAreSmaller(v);
      SortedFieldsAreSmaller(w);
      SortedFromSame(v, w);
      SortedFieldsWellFormed(v);
      SortedFieldsWellFormed(w);
      SameFieldsText(v, SortFields(fields), w, SortFields(w.fields), true, render);
    case _ =>
  }

  lemma SortedFieldsWellFormed<N(!new)>(v: Json<N>)
    requires v.Object? && WellFormed(v)
    ensures forall i :: 0 <= i < |SortFields(v.fields)| ==> WellFormed(SortFields(v.fields)[i].value)
    ensures PlainKeys(v) ==> forall i :: 0 <= i < |SortFields(v.fields)| ==>
              '"' !in SortFields(v.fields)[i].key && PlainKeys(SortFields(v.fields)[i].value)
  {
    forall i | 0 <= i < |SortFields(v.fields)|
      ensures WellFormed(SortFields(v.fields)[i].value)
      ensures PlainKeys(v) ==> '"' !in SortFields(v.fields)[i].key && PlainKeys(SortFields(v.fields)[i].value)
    {
      var k := SortedFieldCameFrom(v.fields, i);
    }
  }

  lemma {:induction false} SameItemsText<N(!new)>(v: Json<N>, xs: seq<Json<N>>, w: Json<N>, ys: seq<Json<N>>, first: bool, render: Renderer<N>)
    requires |xs| == |ys|
    requires forall i :: 0 <= i < |xs| ==> xs[i] < v && ys[i] < w && WellFormed(xs[i]) && WellFormed(ys[i]) && Same(xs[i], ys[i])
    ensures CanonicalItems(v, xs, first, render) == CanonicalItems(w, ys, first, render)
    decreases v, 0, |xs|
  {
    if xs != [] {
      SameMeansSameText(xs[0], ys[0], render);
      SameItemsText(v, xs[1..], w, ys[1..], false, render);
    }
  }

  lemma {:induction false} SameFieldsText<N(!new)>(v: Json<N>, f: seq<Field<N>>, w: Json<N>, h: seq<Field<N>>, first: bool, render: Renderer<N>)
    requires FieldsSame(f, h)
    requires forall i :: 0 <= i < |f| ==> f[i].value < v && h[i].value < w && WellFormed(f[i].value) && WellFormed(h[i].value)
    ensures CanonicalFields(v, f, first, render) == CanonicalFields(w, h, first, render)
    decreases v, 0, |f|
  {
    if f != [] {
      SameMeansSameText(f[0].value, h[0].value, render);
      SameFieldsText(v, f[1..], w, h[1..], false, render);
    }
  }

  // -------------------------------------------------- the text is unambiguous

  /** The text is over, or goes on with a separator or a closing bracket. */
  predicate Ends(s: string) {
    s == "" || s[0] in [',', ']', '}']
  }

  /** How many characters at the start of `s` belong to a token. */
  function TokenLength(s: string, inToken: char -> bool): nat {
    if s == "" || !inToken(s[0]) then 0 else 1 + TokenLength(s[1..], inToken)
  }

  lemma {:induction false} TokenLengthIs(a: string, s: string, inToken: char -> bool)
    requires (forall i :: 0 <= i < |a| ==> inToken(a[i])) && (s == "" || !inToken(s[0]))
    ensures TokenLength(a + s, inToken) == |a|
  {
    if a == "" {
      assert a + s == s;
    } else {
      TokenLengthIs(a[1..], s, inToken);
      assert (a + s)[0] == a[0] && (a + s)[1..] == a[1..] + s;
    }
  }

  /** A token of one class of characters, followed by none of that class, is determined. */
  lemma TokenSplits(a: string, s: string, b: string, t: string, inToken: char -> bool)
    requires a + s == b + t
    requires (forall i :: 0 <= i < |a| ==> inToken(a[i])) && (s == "" || !inToken(s[0]))
    requires (forall i :: 0 <= i < |b| ==> inToken(b[i])) && (t == "" || !inToken(t[0]))
    ensures a == b && s == t
  {
    TokenLengthIs(a, s, inToken);
    TokenLengthIs(b, t, inToken);
    ConcatInjective(a, s, b, t);
  }

  lemma NumberSplits(a: string, s: string, b: string, t: string)
    requires a + s == b + t && IsNumberText(a) && IsNumberText(b) && Ends(s) && Ends(t)
    ensures a == b && s == t
  {
    TokenSplits(a, s, b, t, IsNumberChar);
  }

  lemma KeySplits(k: string, s: string, l: string, t: string)
    requires '"' !in k && '"' !in l && k + ("\":" + s) == l + ("\":" + t)
    ensures k == l && s == t
  {
    var notQuote := (c: char) => c != '"';
    TokenSplits(k, "\":" + s, l, "\":" + t, notQuote);
    ConcatInjective("\":", s, "\":", t);
  }

  lemma EscapeCharShape(c: char)
    ensures var e := EscapeChar(c);
            && 1 <= |e| && e[0] != '"'
            && (|e| == 1 <==> e[0] != '\\')
            && (|e| > 1 ==> (|e| == 6 <==> e[1] == 'u') && (|e| == 2 || |e| == 6))
  {
  }

  lemma EscapeCharInjective(c: char, d: char)
    requires EscapeChar(c) == EscapeChar(d)
    ensures c == d
  {
    var e, f := EscapeChar(c), EscapeChar(d);
    if |e| == 6 {
      assert e[4] == f[4] && e[5] == f[5];
      HexInjective(c as int / 16, d as int / 16);
      HexInjective(c as int % 16, d as int % 16);
    } else if |e| == 2 {
      assert e[1] == f[1];
    } else {
      assert e[0] == f[0];
    }
  }

  lemma HexInjective(a: nat, b: nat)
    requires a < 16 && b < 16 && HexDigit(a) == HexDigit(b)
    ensures a == b
  {
  }

  lemma EscapeCharSplits(c: char, s: string, d: char, t: string)
    requires EscapeChar(c) + s == EscapeChar(d) + t
    ensures c == d && s == t
  {
    EscapeCharShape(c);
    EscapeCharShape(d);
    var e, f := EscapeChar(c), EscapeChar(d);
    hide EscapeChar;
    assert (e + s)[0] == e[0] && (f + t)[0] == f[0];
    assert |e| > 1 && |f| > 1 ==> (e + s)[1] == e[1] && (f + t)[1] == f[1];
    assert |e| == |f|;
    ConcatInjective(e, s, f, t);
    EscapeCharInjective(c, d);
  }

  /** The closing quote cannot be taken for an escaped character. */
  lemma EscapeStart(x: string, s: string)
    ensures var text := Escape(x) + ("\"" + s);
            && text != "" && (text[0] == '"' <==> x == "")
            && (x == "" ==> text == "\"" + s)
            && (x != "" ==> text == EscapeChar(x[0]) + (Escape(x[1..]) + ("\"" + s)))
  {
    hide EscapeChar;
    if x == "" {
      assert "" + ("\"" + s) == "\"" + s;
    } else {
      EscapeCharShape(x[0]);
      var e, rest := EscapeChar(x[0]), Escape(x[1..]);
      assert Escape(x) == e + rest;
      hide Escape;
      Regroup(e, rest, "\"" + s);
    }
  }

  lemma Regroup(a: string, b: string, c: string)
    ensures (a + b) + c == a + (b + c)
    ensures a != "" ==> (a + (b + c))[0] == a[0]
  {
  }

  /** An escaped string is determined by its text up to the closing quote. */
  lemma {:induction false} EscapeSplits(x: string, s: string, y: string, t: string)
    requires Escape(x) + ("\"" + s) == Escape(y) + ("\"" + t)
    ensures x == y && s == t
    decreases |x|
  {
    EscapeStart(x, s);
    EscapeStart(y, t);
    hide EscapeChar, Escape;
    if x == "" {
      ConcatInjective("\"", s, "\"", t);
    } else {
      EscapeCharSplits(x[0], Escape(x[1..]) + ("\"" + s), y[0], Escape(y[1..]) + ("\"" + t));
      EscapeSplits(x[1..], s, y[1..], t);
      assert x == [x[0]] + x[1..] && y == [y[0]] + y[1..];
    }
  }

  /** The kind of value that a first character announces. */
  datatype Kind = NullKind | TrueKind | FalseKind | NumberKind | StringKind | ArrayKind | ObjectKind

  function KindOf<N>(v: Json<N>): Kind {
    match v
    case Null => NullKind
    case Bool(b) => if b then TrueKind else FalseKind
    case Number(_) => NumberKind
    case String(_) => StringKind
    case Array(_) => ArrayKind
    case Object(_) => ObjectKind
  }

  function KindOfChar(c: char): Option<Kind> {
    if c == 'n' then Some(NullKind)
    else if c == 't' then Some(TrueKind)
    else if c == 'f' then Some(FalseKind)
    else if c == '"' then Some(StringKind)
    else if c == '[' then Some(ArrayKind)
    else if c == '{' then Some(ObjectKind)
    else if c == '-' || '0' <= c <= '9' then Some(NumberKind)
    else None
  }

  lemma CanonicalFirst<N(!new)>(v: Json<N>, render: Renderer<N>)
    requires IsRenderer(render)
    ensures Canonical(v, render) != "" && KindOfChar(Canonical(v, render)[0]) == Some(KindOf(v))
  {
    match v
    case Number(n) => assert IsNumberText(render(n));
    case _ =>
  }

  /**
   The canonical text of a value, followed by a separator or nothing, determines the value
   up to key order and what follows.
   */
  lemma {:induction false} CanonicalSplits<N(!new)>(v: Json<N>, s: string, w: Json<N>, t: string, render: Renderer<N>)
    requires IsRenderer(render) && WellFormed(v) && WellFormed(w) && PlainKeys(v) && PlainKeys(w)
    requires Canonical(v, render) + s == Canonical(w, render) + t && Ends(s) && Ends(t)
    ensures Same(v, w) && s == t
    decreases v, 1, 0
  {
    CanonicalFirst(v, render);
    CanonicalFirst(w, render);
    var l, r := Canonical(v, render) + s, Canonical(w, render) + t;
    assert l[0] == Canonical(v, render)[0] && r[0] == Canonical(w, render)[0];
    assert KindOf(v) == KindOf(w);
    match v {
      case Null => ConcatInjective("null", s, "null", t);
      case Bool(b) => ConcatInjective(if b then "true" else "false", s, if b then "true" else "false", t);
      case Number(n) => NumberSplits(render(n), s, render(w.n), t);
      case String(x) => StringSplits(x, s, w.s, t);
      case Array(items) => ArraySplits(v, s, w, t, render);
      case Object(fields) => ObjectSplits(v, s, w, t, render);
    }
  }

  lemma StringSplits(x: string, s: string, y: string, t: string)
    requires "\"" + Escape(x) + "\"" + s == "\"" + Escape(y) + "\"" + t
    ensures x == y && s == t
  {
    hide Escape;
    assert "\"" + Escape(x) + "\"" + s == "\"" + (Escape(x) + ("\"" + s));
    assert "\"" + Escape(y) + "\"" + t == "\"" + (Escape(y) + ("\"" + t));
    ConcatInjective("\"", Escape(x) + ("\"" + s), "\"", Escape(y) + ("\"" + t));
    EscapeSplits(x, s, y, t);
  }

  lemma {:induction false} ArraySplits<N(!new)>(v: Json<N>, s: string, w: Json<N>, t: string, render: Renderer<N>)
    requires IsRenderer(render) && v.Array? && w.Array?
    requires WellFormed(v) && WellFormed(w) && PlainKeys(v) && PlainKeys(w)
    requires Canonical(v, render) + s == Canonical(w, render) + t
    ensures Same(v, w) && s == t
    decreases v, 0, |v.items| + 1
  {
    var xs, ys := CanonicalItems(v, v.items, true, render), CanonicalItems(w, w.items, true, render);
    assert Canonical(v, render) + s == "[" + (xs + ("]" + s)) && Canonical(w, render) + t == "[" + (ys + ("]" + t));
    ConcatInjective("[", xs + ("]" + s), "[", ys + ("]" + t));
    ItemsSplit(v, v.items, s, w, w.items, t, true, render);
  }

  lemma {:induction false} ObjectSplits<N(!new)>(v: Json<N>, s: string, w: Json<N>, t: string, render: Renderer<N>)
    requires IsRenderer(render) && v.Object? && w.Object?
    requires WellFormed(v) && WellFormed(w) && PlainKeys(v) && PlainKeys(w)
    requires Canonical(v, render) + s == Canonical(w, render) + t
    ensures Same(v, w) && s == t
    decreases v, 0, |v.fields| + 1
  {
    SortedFieldsAreSmaller(v);
    SortedFieldsAreSmaller(w);
    SortedFieldsWellFormed(v);
    SortedFieldsWellFormed(w);
    SortFieldsKeeps(v.fields);
    var f, h := SortFields(v.fields), SortFields(w.fields);
    var xs, ys := CanonicalFields(v, f, true, render), CanonicalFields(w, h, true, render);
    assert Canonical(v, render) + s == "{" + (xs + ("}" + s)) && Canonical(w, render) + t == "{" + (ys + ("}" + t));
    ConcatInjective("{", xs + ("}" + s), "{", ys + ("}" + t));
    FieldsSplit(v, f, s, w, h, t, true, render);
    SameFromSorted(v, w);
  }

  lemma {:induction false} ItemsSplit<N(!new)>(v: Json<N>, xs: seq<Json<N>>, s: string, w: Json<N>, ys: seq<Json<N>>, t: string, first: bool, render: Renderer<N>)
    requires IsRenderer(render)
    requires forall i :: 0 <= i < |xs| ==> xs[i] < v && WellFormed(xs[i]) && PlainKeys(xs[i])
    requires forall i :: 0 <= i < |ys| ==> ys[i] < w && WellFormed(ys[i]) && PlainKeys(ys[i])
    requires CanonicalItems(v, xs, first, render) + ("]" + s) == CanonicalItems(w, ys, first, render) + ("]" + t)
    ensures |xs| == |ys| && s == t && forall i :: 0 <= i < |xs| ==> Same(xs[i], ys[i])
    decreases v, 0, |xs|
  {
    hide Canonical, PlainKeys, WellFormed, IsRenderer, Same;
    ItemsStart(v, xs, s, first, render);
    ItemsStart(w, ys, t, first, render);
    FirstItemText(v, xs, s, first, render);
    FirstItemText(w, ys, t, first, render);
    if xs == [] {
      ConcatInjective("]", s, "]", t);
    } else {
      ItemsStart(v, xs[1..], s, false, render);
      ItemsStart(w, ys[1..], t, false, render);
      hide CanonicalItems;
      var sep := if first then "" else ",";
      var a, b := Canonical(xs[0], render), Canonical(ys[0], render);
      var restX := CanonicalItems(v, xs[1..], false, render) + ("]" + s);
      var restY := CanonicalItems(w, ys[1..], false, render) + ("]" + t);
      ConcatInjective(sep, a + restX, sep, b + restY);
      CanonicalSplits(xs[0], restX, ys[0], restY, render);
      ItemsSplit(v, xs[1..], s, w, ys[1..], t, false, render);
    }
  }

  lemma FirstItemText<N(!new)>(v: Json<N>, xs: seq<Json<N>>, s: string, first: bool, render: Renderer<N>)
    requires forall i :: 0 <= i < |xs| ==> xs[i] < v
    ensures xs == [] ==> CanonicalItems(v, xs, first, render) + ("]" + s) == "]" + s
    ensures xs != [] ==>
              CanonicalItems(v, xs, first, render) + ("]" + s)
              == (if first then "" else ",") + (Canonical(xs[0], render) + (CanonicalItems(v, xs[1..], false, render) + ("]" + s)))
  {
    hide Canonical;
    var c := "]" + s;
    if xs == [] {
      assert "" + c == c;
    } else {
      var sep, a, rest := if first then "" else ",", Canonical(xs[0], render), CanonicalItems(v, xs[1..], false, render);
      assert CanonicalItems(v, xs, first, render) == sep + (a + rest);
      hide CanonicalItems;
      Regroup(sep, a + rest, c);
      Regroup(a, rest, c);
    }
  }

  /** The first character after `[` or an item tells whether another item follows. */
  lemma ItemsStart<N(!new)>(v: Json<N>, xs: seq<Json<N>>, s: string, first: bool, render: Renderer<N>)
    requires IsRenderer(render) && forall i :: 0 <= i < |xs| ==> xs[i] < v
    ensures var text := CanonicalItems(v, xs, first, render) + ("]" + s);
            text != "" && (text[0] == ']' <==> xs == []) && (!first ==> Ends(text))
  {
    if xs != [] {
      CanonicalFirst(xs[0], render);
      hide Canonical;
    }
  }

  lemma FieldsStart<N(!new)>(v: Json<N>, f: seq<Field<N>>, s: string, first: bool, render: Renderer<N>)
    requires forall i :: 0 <= i < |f| ==> f[i].value < v
    ensures var text := CanonicalFields(v, f, first, render) + ("}" + s);
            text != "" && (text[0] == '}' <==> f == []) && (!first ==> Ends(text))
  {
    hide Canonical;
  }

  lemma {:induction false} FieldsSplit<N(!new)>(v: Json<N>, f: seq<Field<N>>, s: string, w: Json<N>, h: seq<Field<N>>, t: string, first: bool, render: Renderer<N>)
    requires IsRenderer(render)
    requires forall i :: 0 <= i < |f| ==> f[i].value < v && WellFormed(f[i].value) && PlainKeys(f[i].value) && '"' !in f[i].key
    requires forall i :: 0 <= i < |h| ==> h[i].value < w && WellFormed(h[i].value) && PlainKeys(h[i].value) && '"' !in h[i].key
    requires CanonicalFields(v, f, first, render) + ("}" + s) == CanonicalFields(w, h, first, render) + ("}" + t)
    ensures FieldsSame(f, h) && s == t
    decreases v, 0, |f|
  {
    hide Canonical, PlainKeys, WellFormed, IsRenderer, Same;
    FieldsStart(v, f, s, first, render);
    FieldsStart(w, h, t, first, render);
    FirstFieldText(v, f, s, first, render);
    FirstFieldText(w, h, t, first, render);
    if f == [] {
      ConcatInjective("}", s, "}", t);
    } else {
      var a, b := Canonical(f[0].value, render), Canonical(h[0].value, render);
      var restF := CanonicalFields(v, f[1..], false, render) + ("}" + s);
      var restH := CanonicalFields(w, h[1..], false, render) + ("}" + t);
      FieldsStart(v, f[1..], s, false, render);
      FieldsStart(w, h[1..], t, false, render);
      hide CanonicalFields;
      var open := (if first then "" else ",") + "\"";
      ConcatInjective(open, f[0].key + ("\":" + (a + restF)), open, h[0].key + ("\":" + (b + restH)));
      KeySplits(f[0].key, a + restF, h[0].key, b + restH);
      CanonicalSplits(f[0].value, restF, h[0].value, restH, render);
      FieldsSplit(v, f[1..], s, w, h[1..], t, false, render);
    }
  }

  lemma FirstFieldText<N(!new)>(v: Json<N>, f: seq<Field<N>>, s: string, first: bool, render: Renderer<N>)
    requires forall i :: 0 <= i < |f| ==> f[i].value < v
    ensures f == [] ==> CanonicalFields(v, f, first, render) + ("}" + s) == "}" + s
    ensures f != [] ==> (
              CanonicalFields(v, f, first, render) + ("}" + s)
              == ((if first then "" else ",") + "\"")
                 + (f[0].key + ("\":" + (Canonical(f[0].value, render) + (CanonicalFields(v, f[1..], false, render) + ("}" + s))))))
  {
    hide Canonical;
    var c := "}" + s;
    if f == [] {
      assert "" + c == c;
    } else {
      var sep, k := if first then "" else ",", f[0].key;
      var a, rest := Canonical(f[0].value, render), CanonicalFields(v, f[1..], false, render);
      assert CanonicalFields(v, f, first, render) == sep + ("\"" + (k + ("\":" + (a + rest))));
      hide CanonicalFields;
      RegroupField(sep, k, a, rest, c);
    }
  }

  lemma RegroupField(sep: string, k: string, a: string, rest: string, c: string)
    ensures sep + ("\"" + (k + ("\":" + (a + rest)))) + c == (sep + "\"") + (k + ("\":" + (a + (rest + c))))
  {
    Regroup(a, rest, c);
    Regroup("\":", a + rest, c);
    Regroup(k, "\":" + (a + rest), c);
    Regroup("\"", k + ("\":" + (a + rest)), c);
    Regroup(sep, "\"" + (k + ("\":" + (a + rest))), c);
    Regroup(sep, "\"", k + ("\":" + (a + (rest + c))));
  }

  /**
   On values without quotes in keys, canonical text is equality up to key order, at any
   depth and in both directions.
   */
  lemma CanonicalIsEqualityUpToKeyOrder<N(!new)>(v: Json<N>, w: Json<N>, render: Renderer<N>)
    requires IsRenderer(render) && WellFormed(v) && WellFormed(w) && PlainKeys(v) && PlainKeys(w)
    ensures Canonical(v, render) == Canonical(w, render) <==> Same(v, w)
  {
    if Same(v, w) {
      SameMeansSameText(v, w, render);
    }
    if Canonical(v, render) == Canonical(w, render) {
      assert Canonical(v, render) + "" == Canonical(v, render) && Canonical(w, render) + "" == Canonical(w, render);
      CanonicalSplits(v, "", w, "", render);
    }
  }

  // ------------------------------------------------------ keys that hold quotes

  lemma {:induction false} LexPrefix(a: string, b: string, c: string)
    requires LexLess(a, b)
    ensures LexLess(a, b + c)
  {
    if a != "" && a[0] == b[0] {
      LexPrefix(a[1..], b[1..], c);
      assert (b + c)[1..] == b[1..] + c;
    }
  }

  lemma {:induction false} SortFieldsIdle<N(!new)>(fields: seq<Field<N>>)
    requires StrictlySorted(fields)
    ensures SortFields(fields) == fields
  {
    if fields != [] {
      SortFieldsIdle(fields[1..]);
      if |fields| > 1 {
        LexTotal(fields[0].key, fields[1].key);
      }
      assert fields == [fields[0]] + fields[1..];
    }
  }

  lemma SortedIsDistinct<N(!new)>(fields: seq<Field<N>>)
    requires StrictlySorted(fields)
    ensures Distinct(Keys(fields))
  {
    forall i, j | 0 <= i < j < |fields|
      ensures Keys(fields)[i] != Keys(fields)[j]
    {
      LexIrreflexive(fields[i].key);
    }
  }

  /** A key whose text runs from one key, over the value stored there, to the next key. */
  function SwallowingKey(k: string, text: string, l: string): string {
    k + ("\":" + (text + (",\"" + l)))
  }

  /** The last two fields written as one under the swallowing key. */
  function LastTwoMerged<N(!new)>(fields: seq<Field<N>>, render: Renderer<N>): seq<Field<N>>
    requires |fields| >= 2
  {
    var n := |fields|;
    fields[..n - 2] + [Field(SwallowingKey(fields[n - 2].key, Canonical(fields[n - 2].value, render), fields[n - 1].key), fields[n - 1].value)]
  }

  lemma MergedIsSorted<N(!new)>(fields: seq<Field<N>>, render: Renderer<N>)
    requires |fields| >= 2 && StrictlySorted(fields)
    ensures StrictlySorted(LastTwoMerged(fields, render))
  {
    hide Canonical;
    var n := |fields|;
    var k, text, l := fields[n - 2].key, Canonical(fields[n - 2].value, render), fields[n - 1].key;
    forall i | 0 <= i < n - 2
      ensures LexLess(fields[i].key, SwallowingKey(k, text, l))
    {
      LexPrefix(fields[i].key, k, "\":" + (text + (",\"" + l)));
    }
  }

  lemma TwoFieldsAsOne(sep: string, k: string, a: string, l: string, b: string)
    ensures sep + ("\"" + (k + ("\":" + (a + ("," + ("\"" + (l + ("\":" + (b + "")))))))))
         == sep + ("\"" + (SwallowingKey(k, a, l) + ("\":" + (b + ""))))
  {
    var c := "\":" + (b + "");
    Regroup(",\"", l, c);
    assert ",\"" + (l + c) == "," + ("\"" + (l + c));
    Regroup(a, ",\"" + l, c);
    Regroup("\":", a + (",\"" + l), c);
    Regroup(k, "\":" + (a + (",\"" + l)), c);
  }

  lemma {:induction false} MergedTextIsSame<N(!new)>(v: Json<N>, f: seq<Field<N>>, w: Json<N>, h: seq<Field<N>>, first: bool, render: Renderer<N>)
    requires |f| >= 2 && h == LastTwoMerged(f, render)
    requires (forall i :: 0 <= i < |f| ==> f[i].value < v) && (forall i :: 0 <= i < |h| ==> h[i].value < w)
    ensures CanonicalFields(v, f, first, render) == CanonicalFields(w, h, first, render)
    decreases |f|
  {
    hide Canonical;
    if |f| == 2 {
      var a, b := Canonical(f[0].value, render), Canonical(f[1].value, render);
      assert f[1..][1..] == [] && h[1..] == [];
      assert h[0] == Field(SwallowingKey(f[0].key, a, f[1].key), f[1].value);
      NothingLeft(v, false, render);
      NothingLeft(w, false, render);
      TwoFieldsAsOne(if first then "" else ",", f[0].key, a, f[1].key, b);
      hide SwallowingKey;
    } else {
      assert h[1..] == LastTwoMerged(f[1..], render);
      MergedTextIsSame(v, f[1..], w, h[1..], false, render);
    }
  }

  /** An object with at least two fields has the text of one that hides the last field but one in a key. */
  lemma EveryObjectCollides<N(!new)>(v: Json<N>, render: Renderer<N>) returns (w: Json<N>)
    requires WellFormed(v) && v.Object? && |v.fields| >= 2
    ensures WellFormed(w) && Canonical(w, render) == Canonical(v, render)
    ensures !Same(v, w) && !PlainKeys(w)
  {
    var f := SortFields(v.fields);
    SortFieldsKeeps(v.fields);
    SortFieldsSorts(v.fields);
    SortedFieldsAreSmaller(v);
    SortedFieldsWellFormed(v);
    var h := LastTwoMerged(f, render);
    w := Object(h);
    MergedIsSorted(f, render);
    SortFieldsIdle(h);
    SortedIsDistinct(h);
    MergedTextIsSame(v, f, w, h, true, render);
    hide Canonical, SortFields;
    var last := h[|h| - 1];
    assert '"' in last.key by {
      assert last.key[|f[|f| - 2].key|] == '"';
    }
  }

  /** Some object at some depth has at least two fields. */
  predicate HoldsTwoFields<N(!new)>(v: Json<N>) {
    match v
    case Array(items) => exists i :: 0 <= i < |items| && HoldsTwoFields(items[i])
    case Object(fields) => |fields| >= 2 || exists i :: 0 <= i < |fields| && HoldsTwoFields(fields[i].value)
    case _ => false
  }

  lemma {:induction false} ItemsTextIs<N(!new)>(v: Json<N>, xs: seq<Json<N>>, w: Json<N>, ys: seq<Json<N>>, first: bool, render: Renderer<N>)
    requires |xs| == |ys|
    requires forall i :: 0 <= i < |xs| ==> xs[i] < v && ys[i] < w && Canonical(xs[i], render) == Canonical(ys[i], render)
    ensures CanonicalItems(v, xs, first, render) == CanonicalItems(w, ys, first, render)
    decreases |xs|
  {
    hide Canonical;
    if xs != [] {
      ItemsTextIs(v, xs[1..], w, ys[1..], false, render);
    }
  }

  /** One item replaced by another with the same text. */
  lemma ArrayCollides<N(!new)>(v: Json<N>, i: nat, x: Json<N>, render: Renderer<N>) returns (w: Json<N>)
    requires WellFormed(v) && v.Array? && i < |v.items|
    requires WellFormed(x) && Canonical(x, render) == Canonical(v.items[i], render) && !Same(v.items[i], x) && !PlainKeys(x)
    ensures WellFormed(w) && Canonical(w, render) == Canonical(v, render) && !Same(v, w) && !PlainKeys(w)
  {
    w := Array(v.items[i := x]);
    assert w.items[i] == x;
    ItemsTextIs(v, v.items, w, w.items, true, render);
    hide CanonicalItems;
  }

  /** The value of the only field replaced by another with the same text. */
  lemma OnlyFieldCollides<N(!new)>(v: Json<N>, x: Json<N>, render: Renderer<N>) returns (w: Json<N>)
    requires WellFormed(v) && v.Object? && |v.fields| == 1
    requires WellFormed(x) && Canonical(x, render) == Canonical(v.fields[0].value, render)
    requires !Same(v.fields[0].value, x) && !PlainKeys(x)
    ensures WellFormed(w) && Canonical(w, render) == Canonical(v, render) && !Same(v, w) && !PlainKeys(w)
  {
    var key := v.fields[0].key;
    var h := [Field(key, x)];
    w := Object(h);
    assert v.fields == [v.fields[0]];
    SortFieldsIdle(v.fields);
    SortFieldsIdle(h);
    NothingLeft(v, false, render);
    NothingLeft(w, false, render);
    assert v.fields[1..] == [] && h[1..] == [];
    assert Get(h, key) == Some(x);
    hide SortFields, CanonicalItems;
  }

  /**
   Keys are not escaped, so every value that holds an object with at least two fields, at any
   depth, has the canonical text of a different value.
   */
  lemma {:induction false} EveryValueCollides<N(!new)>(v: Json<N>, render: Renderer<N>) returns (w: Json<N>)
    requires WellFormed(v) && HoldsTwoFields(v)
    ensures WellFormed(w) && Canonical(w, render) == Canonical(v, render)
    ensures !Same(v, w) && !PlainKeys(w)
    decreases v
  {
    hide Canonical, Same;
    if v.Array? {
      var i :| 0 <= i < |v.items| && HoldsTwoFields(v.items[i]);
      var x := EveryValueCollides(v.items[i], render);
      w := ArrayCollides(v, i, x, render);
    } else if |v.fields| >= 2 {
      w := EveryObjectCollides(v, render);
    } else {
      var x := EveryValueCollides(v.fields[0].value, render);
      w := OnlyFieldCollides(v, x, render);
    }
  }

  /** The smallest such pair. */
  lemma QuotedKeysCollide<N(!new)>(render: Renderer<N>) returns (v: Json<N>, w: Json<N>)
    ensures WellFormed(v) && WellFormed(w) && PlainKeys(v) && !PlainKeys(w)
    ensures Canonical(v, render) == Canonical(w, render) && !Same(v, w)
  {
    v := Object([Field("a", Null), Field("b", Null)]);
    assert Keys(v.fields)[0] == "a" && Keys(v.fields)[1] == "b";
    w := EveryObjectCollides(v, render);
  }
}
