/** multipart/form-data (section 4 of RFC 7578, section 5.1.1 of RFC 2046): the boundary scan
    that plugins/multipart-storage/src/parser.ts and ts/http/forms.ts each implement. */
module Multipart {
  import opened Wrappers
  import opened ByteStrings

  const CR: byte := 13
  const LF: byte := 10
  const DASH: byte := 45
  const CRLF: Bytes := [CR, LF]
  const HEADER_END: Bytes := [CR, LF, CR, LF]

  /** `pat` stands at `i` in `buf`. */
  predicate At(buf: Bytes, pat: Bytes, i: int) {
    0 <= i && i + |pat| <= |buf| && buf[i..i + |pat|] == pat
  }

  /** `r` is the first place of `pat` at or after `start`, or -1 when there is none. */
  ghost predicate First(buf: Bytes, pat: Bytes, start: nat, r: int) {
    if r == -1 then forall i :: start <= i ==> !At(buf, pat, i)
    else start <= r && At(buf, pat, r) && forall i :: start <= i < r ==> !At(buf, pat, i)
  }

  lemma {:induction false} FirstExists(buf: Bytes, pat: Bytes, start: nat)
    ensures exists r :: First(buf, pat, start, r)
    decreases |buf| - start
  {
    if start > |buf| {
      assert First(buf, pat, start, -1);
    } else if At(buf, pat, start) {
      assert First(buf, pat, start, start);
    } else {
      FirstExists(buf, pat, start + 1);
      var r :| First(buf, pat, start + 1, r);
      assert First(buf, pat, start, r);
    }
  }

  /** `Buffer.indexOf`. */
  ghost function IndexOf(buf: Bytes, pat: Bytes, start: nat): (r: int)
    ensures First(buf, pat, start, r)
  {
    FirstExists(buf, pat, start);
    var r :| First(buf, pat, start, r);
    r
  }

  lemma FirstIsIndex(buf: Bytes, pat: Bytes, start: nat, r: int)
    requires First(buf, pat, start, r)
    ensures r == IndexOf(buf, pat, start)
  {
    var s := IndexOf(buf, pat, start);
    assert s != -1 ==> At(buf, pat, s);
    assert r != -1 ==> At(buf, pat, r);
  }

  method BufferIndexOf(buf: Bytes, pat: Bytes, start: nat) returns (r: int)
    ensures r == IndexOf(buf, pat, start)
  {
    r := start;
    while r <= |buf|
      invariant start <= r && forall i :: start <= i < r ==> !At(buf, pat, i)
      decreases |buf| - r
    {
      if At(buf, pat, r) {
        FirstIsIndex(buf, pat, start, r);
        return;
      }
      r := r + 1;
    }
    r := -1;
    FirstIsIndex(buf, pat, start, r);
  }

  function Opening(boundary: Bytes): Bytes {
    [DASH, DASH] + boundary
  }

  function Separator(boundary: Bytes): Bytes {
    CRLF + Opening(boundary)
  }

  /** One part as the scan cuts it: the header text and a view of the data. */
  datatype Cut = Cut(header: Bytes, data: Bytes)

  /** Where the header text starts: a CRLF after the boundary belongs to the boundary line. */
  function HeaderStart(buf: Bytes, pos: nat): nat {
    if At(buf, CRLF, pos) then pos + 2 else pos
  }

  /** A part, and the place just past the separator that ends it. */
  datatype Found = Found(cut: Cut, next: nat)

  /** The part at `pos`, just past a boundary, and where the scan goes on; none at the closing
      dashes, at the end, or when the headers or the data are not terminated. */
  ghost function NextCut(buf: Bytes, separator: Bytes, pos: nat): (r: Option<Found>)
    ensures r.Some? ==> pos < r.value.next <= |buf|
  {
    if pos >= |buf| || At(buf, [DASH, DASH], pos) then None
    else
      var start := HeaderStart(buf, pos);
      var headerEnd := IndexOf(buf, HEADER_END, start);
      if headerEnd == -1 then None
      else
        var dataStart := headerEnd + |HEADER_END|;
        var next := IndexOf(buf, separator, dataStart);
        if next == -1 then None
        else Some(Found(Cut(buf[start..headerEnd], buf[dataStart..next]), next + |separator|))
  }

  ghost function ScanFrom(buf: Bytes, separator: Bytes, pos: nat): seq<Cut>
    decreases |buf| - pos
  {
    match NextCut(buf, separator, pos)
    case None => []
    case Some(Found(cut, next)) => [cut] + ScanFrom(buf, separator, next)
  }

  ghost function ScanBetween(buf: Bytes, opening: Bytes, separator: Bytes): seq<Cut> {
    var pos := IndexOf(buf, opening, 0);
    if pos == -1 then [] else ScanFrom(buf, separator, pos + |opening|)
  }

  /** The parts of a body, in order. */
  ghost function Scan(buf: Bytes, boundary: Bytes): seq<Cut> {
    ScanBetween(buf, Opening(boundary), Separator(boundary))
  }

  // ----- The two implementations -----

  /** The regular expressions and the text decoder applied to what was cut, uninterpreted. */
  datatype Extract = Extract(
    name: Bytes -> Option<string>,
    filename: Bytes -> Option<string>,
    contentType: Bytes -> Option<string>,
    text: Bytes -> string
  )

  const OCTET_STREAM := "application/octet-stream"

  function Or(o: Option<string>, fallback: string): string {
    if o.Some? then o.value else fallback
  }

  datatype RawPart = RawPart(name: string, filename: Option<string>, contentType: string, data: Bytes)

  function PartOf(x: Extract, cut: Cut): RawPart {
    RawPart(Or(x.name(cut.header), ""), x.filename(cut.header), Or(x.contentType(cut.header), OCTET_STREAM), cut.data)
  }

  function PartsOf(x: Extract, cuts: seq<Cut>): seq<RawPart> {
    if cuts == [] then [] else [PartOf(x, cuts[0])] + PartsOf(x, cuts[1..])
  }

  datatype FormFile = FormFile(name: string, filename: string, contentType: string, data: Bytes)

  datatype ParsedForm = ParsedForm(fields: map<string, string>, files: seq<FormFile>)

  function AddPart(x: Extract, form: ParsedForm, cut: Cut): ParsedForm {
    var part := PartOf(x, cut);
    if part.filename.Some?
    then form.(files := form.files + [FormFile(part.name, part.filename.value, part.contentType, part.data)])
    else form.(fields := form.fields[part.name := x.text(part.data)])
  }

  /** The form a list of parts amounts to; a repeated field keeps its last value. */
  function FormOf(x: Extract, form: ParsedForm, cuts: seq<Cut>): ParsedForm
    decreases |cuts|
  {
    if cuts == [] then form else FormOf(x, AddPart(x, form, cuts[0]), cuts[1..])
  }

  lemma PairAt(buf: Bytes, first: byte, second: byte, i: nat)
    ensures At(buf, [first, second], i) <==> i + 1 < |buf| && buf[i] == first && buf[i + 1] == second
  {
    if i + 1 < |buf| {
      assert buf[i..i + 2] == [buf[i], buf[i + 1]];
    }
  }

  lemma YieldNext(x: Extract, yielded: seq<RawPart>, buf: Bytes, separator: Bytes, pos: nat, cut: Cut, next: nat)
    requires NextCut(buf, separator, pos) == Some(Found(cut, next))
    ensures yielded + PartsOf(x, ScanFrom(buf, separator, pos))
         == yielded + [PartOf(x, cut)] + PartsOf(x, ScanFrom(buf, separator, next))
  {
    var rest := ScanFrom(buf, separator, next);
    assert ([cut] + rest)[1..] == rest;
  }

  lemma AddNext(x: Extract, form: ParsedForm, buf: Bytes, separator: Bytes, pos: nat, cut: Cut, next: nat)
    requires NextCut(buf, separator, pos) == Some(Found(cut, next))
    ensures FormOf(x, form, ScanFrom(buf, separator, pos))
         == FormOf(x, AddPart(x, form, cut), ScanFrom(buf, separator, next))
  {
    var rest := ScanFrom(buf, separator, next);
    assert ([cut] + rest)[1..] == rest;
  }

  // ----- What a form holds -----

  /** The name of a part; a part that names none has the empty one. */
  function NameIn(x: Extract, cut: Cut): string {
    match x.name(cut.header)
    case Some(name) => name
    case None => ""
  }

  predicate IsField(x: Extract, cut: Cut) {
    x.filename(cut.header) == None
  }

  /** `part` is what `x` reads in the header text of `cut`, with the data of `cut`. */
  predicate Reads(x: Extract, cut: Cut, part: RawPart) {
    && part.name == NameIn(x, cut)
    && part.filename == x.filename(cut.header)
    && part.contentType == (match x.contentType(cut.header)
                            case Some(t) => t
                            case None => "application/octet-stream")
    && part.data == cut.data
  }

  ghost predicate AllRead(x: Extract, cuts: seq<Cut>, parts: seq<RawPart>) {
    |parts| == |cuts| && forall i :: 0 <= i < |cuts| ==> Reads(x, cuts[i], parts[i])
  }

  /** Part by part, what is yielded is what stands in the header texts, with the data as cut. */
  lemma {:induction false} PartsRead(x: Extract, cuts: seq<Cut>)
    ensures AllRead(x, cuts, PartsOf(x, cuts))
  {
    if cuts != [] {
      PartsRead(x, cuts[1..]);
    }
  }

  /** No field of the same name comes later. */
  ghost predicate LastOfName(x: Extract, cuts: seq<Cut>, i: nat)
    requires i < |cuts|
  {
    forall j :: i < j < |cuts| && IsField(x, cuts[j]) ==> NameIn(x, cuts[j]) != NameIn(x, cuts[i])
  }

  /** The fields are those of the parts without a file name: each name has the decoded data of the
      last part with it, and there are no other names. */
  ghost predicate FieldsHeld(x: Extract, cuts: seq<Cut>, fields: map<string, string>) {
    && (forall i :: 0 <= i < |cuts| && IsField(x, cuts[i]) ==> NameIn(x, cuts[i]) in fields)
    && (forall name :: name in fields ==>
          exists i :: 0 <= i < |cuts| && IsField(x, cuts[i]) && NameIn(x, cuts[i]) == name)
    && (forall i :: 0 <= i < |cuts| && IsField(x, cuts[i]) && LastOfName(x, cuts, i) ==>
          fields[NameIn(x, cuts[i])] == x.text(cuts[i].data))
  }

  /** The parts with a file name, in order. */
  function Uploads(x: Extract, cuts: seq<Cut>): seq<Cut> {
    if cuts == [] then [] else Uploads(x, cuts[..|cuts| - 1]) + LastUpload(x, cuts)
  }

  function LastUpload(x: Extract, cuts: seq<Cut>): seq<Cut>
    requires cuts != []
  {
    if IsField(x, cuts[|cuts| - 1]) then [] else [cuts[|cuts| - 1]]
  }

  /** The files are those parts, with the same data. */
  ghost predicate FilesHeld(x: Extract, cuts: seq<Cut>, files: seq<FormFile>) {
    var uploads := Uploads(x, cuts);
    && |files| == |uploads|
    && forall i :: 0 <= i < |files| ==>
         Reads(x, uploads[i], RawPart(files[i].name, Some(files[i].filename), files[i].contentType, files[i].data))
  }

  ghost predicate FormHolds(x: Extract, cuts: seq<Cut>, form: ParsedForm) {
    FieldsHeld(x, cuts, form.fields) && FilesHeld(x, cuts, form.files)
  }

  lemma {:induction false} FormSnoc(x: Extract, form: ParsedForm, cuts: seq<Cut>, cut: Cut)
    ensures FormOf(x, form, cuts + [cut]) == AddPart(x, FormOf(x, form, cuts), cut)
    decreases |cuts|
  {
    hide AddPart;
    if cuts == [] {
      assert [] + [cut] == [cut] && [cut][1..] == [];
    } else {
      assert (cuts + [cut])[1..] == cuts[1..] + [cut];
      FormSnoc(x, AddPart(x, form, cuts[0]), cuts[1..], cut);
    }
  }

  /** The last field of its name in a longer list is the last one before, and of another name than
      the field added. */
  lemma LastInFront(x: Extract, cuts: seq<Cut>, cut: Cut, i: nat)
    requires i < |cuts| && LastOfName(x, cuts + [cut], i)
    ensures LastOfName(x, cuts, i) && (IsField(x, cut) ==> NameIn(x, cut) != NameIn(x, cuts[i]))
  {
    hide NameIn, IsField;
    var all := cuts + [cut];
    assert all[|cuts|] == cut && all[i] == cuts[i];
    forall j | i < j < |cuts| && IsField(x, cuts[j]) ensures NameIn(x, cuts[j]) != NameIn(x, cuts[i]) {
      assert all[j] == cuts[j];
    }
  }

  /** A name among the fields of a list is among those of a longer one. */
  lemma StillNamed(x: Extract, cuts: seq<Cut>, cut: Cut, name: string)
    requires exists i :: 0 <= i < |cuts| && IsField(x, cuts[i]) && NameIn(x, cuts[i]) == name
    ensures var all := cuts + [cut]; exists i :: 0 <= i < |all| && IsField(x, all[i]) && NameIn(x, all[i]) == name
  {
    hide NameIn, IsField;
    var i :| 0 <= i < |cuts| && IsField(x, cuts[i]) && NameIn(x, cuts[i]) == name;
    assert (cuts + [cut])[i] == cuts[i];
  }

  lemma AddedFieldHeld(x: Extract, cuts: seq<Cut>, cut: Cut, fields: map<string, string>)
    requires FieldsHeld(x, cuts, fields) && IsField(x, cut)
    ensures FieldsHeld(x, cuts + [cut], fields[NameIn(x, cut) := x.text(cut.data)])
  {
    hide NameIn, IsField, LastOfName;
    var (all, name) := (cuts + [cut], NameIn(x, cut));
    var fields1 := fields[name := x.text(cut.data)];
    assert all[|cuts|] == cut;
    forall i | 0 <= i < |all| && IsField(x, all[i]) ensures NameIn(x, all[i]) in fields1 {
      assert i < |cuts| ==> all[i] == cuts[i];
    }
    forall n | n in fields1 ensures exists i :: 0 <= i < |all| && IsField(x, all[i]) && NameIn(x, all[i]) == n {
      if n == name {
        assert IsField(x, all[|cuts|]);
      } else {
        StillNamed(x, cuts, cut, n);
      }
    }
    forall i | 0 <= i < |all| && IsField(x, all[i]) && LastOfName(x, all, i)
      ensures fields1[NameIn(x, all[i])] == x.text(all[i].data)
    {
      if i < |cuts| {
        assert all[i] == cuts[i];
        LastInFront(x, cuts, cut, i);
      }
    }
  }

  lemma AddedFileLeavesFields(x: Extract, cuts: seq<Cut>, cut: Cut, fields: map<string, string>)
    requires FieldsHeld(x, cuts, fields) && !IsField(x, cut)
    ensures FieldsHeld(x, cuts + [cut], fields)
  {
    hide NameIn, IsField, LastOfName;
    var all := cuts + [cut];
    assert all[|cuts|] == cut;
    forall i | 0 <= i < |all| && IsField(x, all[i]) ensures NameIn(x, all[i]) in fields {
      assert i < |cuts| ==> all[i] == cuts[i];
    }
    forall n | n in fields ensures exists i :: 0 <= i < |all| && IsField(x, all[i]) && NameIn(x, all[i]) == n {
      StillNamed(x, cuts, cut, n);
    }
    forall i | 0 <= i < |all| && IsField(x, all[i]) && LastOfName(x, all, i)
      ensures fields[NameIn(x, all[i])] == x.text(all[i].data)
    {
      assert i < |cuts| && all[i] == cuts[i];
      LastInFront(x, cuts, cut, i);
    }
  }

  lemma AddedPartHeld(x: Extract, cuts: seq<Cut>, cut: Cut, form: ParsedForm)
    requires FormHolds(x, cuts, form)
    ensures FormHolds(x, cuts + [cut], AddPart(x, form, cut))
  {
    hide FieldsHeld;
    var all := cuts + [cut];
    assert all[..|all| - 1] == cuts;
    if IsField(x, cut) {
      AddedFieldHeld(x, cuts, cut, form.fields);
      assert Uploads(x, cuts) + [] == Uploads(x, cuts);
    } else {
      AddedFileLeavesFields(x, cuts, cut, form.fields);
    }
  }

  /** For every list of parts: the form holds exactly their fields and files. */
  lemma {:induction false} FormIsHeld(x: Extract, cuts: seq<Cut>)
    ensures FormHolds(x, cuts, FormOf(x, ParsedForm(map[], []), cuts))
    decreases |cuts|
  {
    if cuts != [] {
      var (front, last) := (cuts[..|cuts| - 1], cuts[|cuts| - 1]);
      assert cuts == front + [last];
      FormIsHeld(x, front);
      FormSnoc(x, ParsedForm(map[], []), front, last);
      AddedPartHeld(x, front, last, FormOf(x, ParsedForm(map[], []), front));
    }
  }

  // ----- The two loops -----

  /** `parts` of plugins/multipart-storage/src/parser.ts: everything the generator yields. */
  method Parts(body: Bytes, boundary: Bytes, x: Extract) returns (yielded: seq<RawPart>)
    ensures yielded == PartsOf(x, Scan(body, boundary)) && AllRead(x, Scan(body, boundary), yielded)
  {
    PartsRead(x, Scan(body, boundary));
    yielded := YieldBetween(body, Opening(boundary), Separator(boundary), x);
  }

  /** The cutting half of the loop body, which the two files spell out alike. */
  method CutNext(body: Bytes, separator: Bytes, pos: nat) returns (r: Option<Found>)
    requires pos < |body|
    ensures r == NextCut(body, separator, pos)
  {
    PairAt(body, DASH, DASH, pos);
    PairAt(body, CR, LF, pos);
    if body[pos] == DASH && pos + 1 < |body| && body[pos + 1] == DASH {
      return None;
    }
    var start := pos;
    if body[pos] == CR && pos + 1 < |body| && body[pos + 1] == LF {
      start := start + 2;
    }
    var headerEnd := BufferIndexOf(body, HEADER_END, start);
    if headerEnd == -1 {
      return None;
    }
    var dataStart := headerEnd + |HEADER_END|;
    var next := BufferIndexOf(body, separator, dataStart);
    if next == -1 {
      return None;
    }
    return Some(Found(Cut(body[start..headerEnd], body[dataStart..next]), next + |separator|));
  }

  method YieldBetween(body: Bytes, opening: Bytes, separator: Bytes, x: Extract) returns (yielded: seq<RawPart>)
    ensures yielded == PartsOf(x, ScanBetween(body, opening, separator))
  {
    hide NextCut;
    yielded := [];
    var pos := BufferIndexOf(body, opening, 0);
    if pos == -1 {
      return;
    }
    pos := pos + |opening|;
    assert yielded + PartsOf(x, ScanFrom(body, separator, pos)) == PartsOf(x, ScanFrom(body, separator, pos));
    while pos < |body|
      invariant pos >= 0
      invariant yielded + PartsOf(x, ScanFrom(body, separator, pos))
             == PartsOf(x, ScanBetween(body, opening, separator))
      decreases |body| - pos
    {
      var found := CutNext(body, separator, pos);
      if found.None? {
        break;
      }
      var (headerText, data) := (found.value.cut.header, found.value.cut.data);
      YieldNext(x, yielded, body, separator, pos, found.value.cut, found.value.next);
      var part := RawPart(Or(x.name(headerText), ""), x.filename(headerText),
                          Or(x.contentType(headerText), OCTET_STREAM), data);
      yielded := yielded + [part];
      pos := found.value.next;
    }
  }

  /** `parseMultipart` of ts/http/forms.ts. */
  method ParseMultipart(body: Bytes, boundary: Bytes, x: Extract) returns (form: ParsedForm)
    ensures form == FormOf(x, ParsedForm(map[], []), Scan(body, boundary))
    ensures FormHolds(x, Scan(body, boundary), form)
  {
    FormIsHeld(x, Scan(body, boundary));
    form := FillBetween(body, Opening(boundary), Separator(boundary), x);
  }

  method FillBetween(body: Bytes, opening: Bytes, separator: Bytes, x: Extract) returns (form: ParsedForm)
    ensures form == FormOf(x, ParsedForm(map[], []), ScanBetween(body, opening, separator))
  {
    hide NextCut;
    var fields: map<string, string>, files: seq<FormFile> := map[], [];
    var pos := BufferIndexOf(body, opening, 0);
    if pos == -1 {
      return ParsedForm(fields, files);
    }
    pos := pos + |opening|;
    while pos < |body|
      invariant pos >= 0
      invariant FormOf(x, ParsedForm(fields, files), ScanFrom(body, separator, pos))
             == FormOf(x, ParsedForm(map[], []), ScanBetween(body, opening, separator))
      decreases |body| - pos
    {
      var found := CutNext(body, separator, pos);
      if found.None? {
        break;
      }
      var (headerText, data) := (found.value.cut.header, found.value.cut.data);
      AddNext(x, ParsedForm(fields, files), body, separator, pos, found.value.cut, found.value.next);
      var name := Or(x.name(headerText), "");
      var filename := x.filename(headerText);
      if filename.Some? {
        var contentType := Or(x.contentType(headerText), OCTET_STREAM);
        files := files + [FormFile(name, filename.value, contentType, data)];
      } else {
        fields := fields[name := x.text(data)];
      }
      pos := found.value.next;
    }
    return ParsedForm(fields, files);
  }

  /** On every body the two implementations agree: the form's files are exactly the yielded
      parts that have a file name, in order and with the same data. */
  function FilesAmong(parts: seq<RawPart>): seq<FormFile> {
    if parts == [] then []
    else
      (if parts[0].filename.Some?
       then [FormFile(parts[0].name, parts[0].filename.value, parts[0].contentType, parts[0].data)] else [])
      + FilesAmong(parts[1..])
  }

  lemma {:induction false} SameFiles(x: Extract, form: ParsedForm, cuts: seq<Cut>)
    ensures FormOf(x, form, cuts).files == form.files + FilesAmong(PartsOf(x, cuts))
    decreases |cuts|
  {
    if cuts == [] {
      assert form.files + [] == form.files;
    } else {
      SameFiles(x, AddPart(x, form, cuts[0]), cuts[1..]);
      assert PartsOf(x, cuts)[1..] == PartsOf(x, cuts[1..]);
    }
  }

  // ----- Round trip -----

  predicate NoCR(b: Bytes) {
    CR !in b
  }

  ghost predicate Contains(buf: Bytes, pat: Bytes) {
    IndexOf(buf, pat, 0) != -1
  }

  /** The rest of a body after a boundary: each part's boundary line end, header text, blank
      line, data and separator, then the closing dashes and an epilogue. */
  function Tail(parts: seq<Cut>, boundary: Bytes, epilogue: Bytes): Bytes {
    if parts == [] then [DASH, DASH] + epilogue
    else
      CRLF + (parts[0].header
              + (HEADER_END + (parts[0].data + (Separator(boundary) + Tail(parts[1..], boundary, epilogue)))))
  }

  function Serialize(preamble: Bytes, parts: seq<Cut>, boundary: Bytes, epilogue: Bytes): Bytes {
    preamble + (Opening(boundary) + Tail(parts, boundary, epilogue))
  }

  predicate EndsInCRLF(h: Bytes) {
    |h| >= 2 && h[|h| - 2] == CR && h[|h| - 1] == LF
  }

  /** The parts a body can carry: the header text has no blank line in it or at its end, and
      the data does not contain the separator. */
  ghost predicate Carriable(p: Cut, boundary: Bytes) {
    !Contains(p.header, HEADER_END) && !EndsInCRLF(p.header) && !Contains(p.data, Separator(boundary))
  }

  lemma AtShifts(a: Bytes, b: Bytes, pat: Bytes, i: int)
    requires 0 <= i
    ensures At(a + b, pat, |a| + i) <==> At(b, pat, i)
  {
    if i + |pat| <= |b| {
      assert (a + b)[|a| + i..|a| + i + |pat|] == b[i..i + |pat|];
    }
  }

  /** Searching after a prefix is searching what follows it. */
  lemma IndexOfShifts(a: Bytes, b: Bytes, pat: Bytes, start: nat)
    ensures IndexOf(a + b, pat, |a| + start)
         == if IndexOf(b, pat, start) == -1 then -1 else |a| + IndexOf(b, pat, start)
  {
    var (r, s) := (IndexOf(a + b, pat, |a| + start), IndexOf(b, pat, start));
    if s != -1 {
      AtShifts(a, b, pat, s);
      assert r != -1 && r <= |a| + s;
    }
    if r != -1 {
      AtShifts(a, b, pat, r - |a|);
      assert s != -1 && |a| + s <= r;
    }
  }

  /** Scanning after a prefix is scanning what follows it. */
  lemma NextCutShifts(a: Bytes, b: Bytes, separator: Bytes, pos: nat)
    ensures NextCut(a + b, separator, |a| + pos)
         == match NextCut(b, separator, pos)
            case None => None
            case Some(found) => Some(Found(found.cut, |a| + found.next))
  {
    AtShifts(a, b, [DASH, DASH], pos);
    AtShifts(a, b, CRLF, pos);
    var start := HeaderStart(b, pos);
    IndexOfShifts(a, b, HEADER_END, start);
    var headerEnd := IndexOf(b, HEADER_END, start);
    if headerEnd != -1 {
      var dataStart := headerEnd + |HEADER_END|;
      IndexOfShifts(a, b, separator, dataStart);
      SliceShifts(a, b, start, headerEnd);
      if IndexOf(b, separator, dataStart) != -1 {
        SliceShifts(a, b, dataStart, IndexOf(b, separator, dataStart));
      }
    }
  }

  lemma SliceShifts(a: Bytes, b: Bytes, lo: nat, hi: nat)
    requires lo <= hi <= |b|
    ensures (a + b)[|a| + lo..|a| + hi] == b[lo..hi]
  {
  }

  /** `b` is what `buf` holds from `k` on. */
  predicate Suffix(buf: Bytes, k: nat, b: Bytes) {
    k <= |buf| && buf[k..] == b
  }

  lemma CutInSuffix(buf: Bytes, k: nat, b: Bytes, separator: Bytes, pos: nat)
    requires Suffix(buf, k, b)
    ensures NextCut(b, separator, pos).None? ==> NextCut(buf, separator, k + pos).None?
    ensures NextCut(b, separator, pos).Some? ==>
              NextCut(buf, separator, k + pos)
              == Some(Found(NextCut(b, separator, pos).value.cut, k + NextCut(b, separator, pos).value.next))
  {
    hide NextCut;
    assert buf == buf[..k] + b;
    NextCutShifts(buf[..k], b, separator, pos);
  }

  /** Scanning a suffix does not depend on what comes before it. */
  lemma {:induction false} ScanShifts(buf: Bytes, k: nat, b: Bytes, separator: Bytes, pos: nat)
    requires Suffix(buf, k, b)
    ensures ScanFrom(buf, separator, k + pos) == ScanFrom(b, separator, pos)
    decreases |b| - pos
  {
    hide NextCut;
    CutInSuffix(buf, k, b, separator, pos);
    var found := NextCut(b, separator, pos);
    if found.Some? {
      ScanShifts(buf, k, b, separator, found.value.next);
    }
  }

  /** The separator cannot overlap itself: its first byte is CR, and no other byte of it is. */
  lemma SeparatorDoesNotOverlap(boundary: Bytes, k: nat)
    requires NoCR(boundary) && 0 < k < |Separator(boundary)|
    ensures Separator(boundary)[k] != Separator(boundary)[0]
  {
    var s := Separator(boundary);
    assert s[0] == CR && s[1] == LF && s[2] == DASH && s[3] == DASH;
    assert s == [CR, LF, DASH, DASH] + boundary;
  }

  /** So it never begins in the data and ends past it. */
  lemma SeparatorDoesNotStraddle(data: Bytes, boundary: Bytes, rest: Bytes, i: nat)
    requires NoCR(boundary) && i < |data| < i + |Separator(boundary)|
    ensures !At(data + (Separator(boundary) + rest), Separator(boundary), i)
  {
    var sep := Separator(boundary);
    var (buf, k) := (data + (sep + rest), |data| - i);
    SeparatorDoesNotOverlap(boundary, k);
    assert buf[|data|] == sep[0];
    if i + |sep| <= |buf| {
      assert buf[i..i + |sep|][k] == buf[|data|];
    }
  }

  /** Where the data of a part is cut: at its end, exactly when it does not contain the separator. */
  lemma DataEnds(data: Bytes, boundary: Bytes, rest: Bytes)
    requires NoCR(boundary)
    ensures var r := IndexOf(data + (Separator(boundary) + rest), Separator(boundary), 0);
            0 <= r <= |data| && (r == |data| <==> !Contains(data, Separator(boundary)))
  {
    var sep := Separator(boundary);
    var buf := data + (sep + rest);
    assert buf[|data|..|data| + |sep|] == sep;
    assert At(buf, sep, |data|);
    var r := IndexOf(buf, sep, 0);
    if r < |data| {
      if r + |sep| > |data| {
        SeparatorDoesNotStraddle(data, boundary, rest, r);
      } else {
        assert data[r..r + |sep|] == buf[r..r + |sep|];
      }
      assert At(data, sep, r);
    }
    var c := IndexOf(data, sep, 0);
    if c != -1 {
      assert buf[c..c + |sep|] == data[c..c + |sep|];
      assert At(buf, sep, c);
    }
  }

  /** A blank line that begins in the header text and ends past it means a trailing CRLF. */
  lemma BlankLineStraddles(h: Bytes, rest: Bytes, i: nat)
    requires i < |h| < i + 4
    ensures At(h + (HEADER_END + rest), HEADER_END, i) <==> i == |h| - 2 && EndsInCRLF(h)
  {
    var buf := h + (HEADER_END + rest);
    assert buf[|h|] == CR && buf[|h| + 1] == LF && buf[|h| + 2] == CR && buf[|h| + 3] == LF;
    var w := buf[i..i + 4];
    assert w == [buf[i], buf[i + 1], buf[i + 2], buf[i + 3]];
    assert w == HEADER_END <==> w[0] == CR && w[1] == LF && w[2] == CR && w[3] == LF;
  }

  /** Where the header text is cut: at its end, exactly when it has no blank line in it and
      does not end in CRLF. */
  lemma HeaderEnds(h: Bytes, rest: Bytes)
    ensures var r := IndexOf(h + (HEADER_END + rest), HEADER_END, 0);
            0 <= r <= |h| && (r == |h| <==> !Contains(h, HEADER_END) && !EndsInCRLF(h))
  {
    var buf := h + (HEADER_END + rest);
    assert buf[|h|..|h| + 4] == HEADER_END;
    assert At(buf, HEADER_END, |h|);
    var r := IndexOf(buf, HEADER_END, 0);
    if r + 4 <= |h| {
      assert h[r..r + 4] == buf[r..r + 4];
      assert At(h, HEADER_END, r);
    } else if r < |h| {
      BlankLineStraddles(h, rest, r);
    }
    var c := IndexOf(h, HEADER_END, 0);
    if c != -1 {
      assert buf[c..c + 4] == h[c..c + 4];
      assert At(buf, HEADER_END, c);
    }
    if EndsInCRLF(h) {
      BlankLineStraddles(h, rest, |h| - 2);
    }
  }

  /** What a cut is, once the header's end and the next separator are known. */
  lemma CutFrom(buf: Bytes, separator: Bytes, pos: nat, start: nat, headerEnd: nat)
    requires pos < |buf| && !At(buf, [DASH, DASH], pos) && HeaderStart(buf, pos) == start
    requires IndexOf(buf, HEADER_END, start) == headerEnd
    ensures headerEnd >= start && headerEnd + 4 <= |buf|
    ensures var (found, next) := (NextCut(buf, separator, pos), IndexOf(buf, separator, headerEnd + 4));
            if next == -1 then found == None
            else found == Some(Found(Cut(buf[start..headerEnd], buf[headerEnd + 4..next]), next + |separator|))
  {
    hide IndexOf, HeaderStart;
    assert |HEADER_END| == 4;
  }

  /** A tail's first part begins after a CRLF and not at closing dashes. */
  lemma TailStarts(buf: Bytes, line: Bytes)
    requires buf == CRLF + line
    ensures |buf| > 0 && !At(buf, [DASH, DASH], 0) && HeaderStart(buf, 0) == 2
  {
    PairAt(buf, DASH, DASH, 0);
    PairAt(buf, CR, LF, 0);
  }

  /** Where the first cut of a tail ends its data, once its header is cut whole. */
  lemma WholeHeader(header: Bytes, data: Bytes, boundary: Bytes, rest: Bytes)
    requires NoCR(boundary)
    ensures var (sep, before) := (Separator(boundary), CRLF + header + HEADER_END);
            var buf := before + (data + (sep + rest));
            var d := IndexOf(data + (sep + rest), sep, 0);
            && |before| == |header| + 6 && IndexOf(buf, sep, |before|) == |before| + d
            && 0 <= d <= |data| && (d == |data| <==> !Contains(data, sep))
            && buf[2..2 + |header|] == header && buf[|before|..|before| + d] == data[..d]
  {
    hide IndexOf, Contains, Separator;
    var (sep, before) := (Separator(boundary), CRLF + header + HEADER_END);
    IndexOfShifts(before, data + (sep + rest), sep, 0);
    DataEnds(data, boundary, rest);
    var d := IndexOf(data + (sep + rest), sep, 0);
    SliceShifts(before, data + (sep + rest), 0, d);
    assert (data + (sep + rest))[0..d] == data[..d];
  }

  /** The first cut of a serialized tail is its first part exactly when that part is carriable. */
  lemma FirstCut(parts: seq<Cut>, boundary: Bytes, epilogue: Bytes)
    requires NoCR(boundary) && parts != []
    ensures var found := NextCut(Tail(parts, boundary, epilogue), Separator(boundary), 0);
            (found.Some? && found.value.cut == parts[0] <==> Carriable(parts[0], boundary))
            && (Carriable(parts[0], boundary) ==>
                  found.value.next + |Tail(parts[1..], boundary, epilogue)| == |Tail(parts, boundary, epilogue)|)
  {
    hide NextCut, IndexOf, Contains, Separator, EndsInCRLF, HeaderStart, At;
    var (p, sep, rest) := (parts[0], Separator(boundary), Tail(parts[1..], boundary, epilogue));
    var afterHeader := p.data + (sep + rest);
    var line := p.header + (HEADER_END + afterHeader);
    var buf := CRLF + line;
    assert buf == Tail(parts, boundary, epilogue);
    TailStarts(buf, line);
    IndexOfShifts(CRLF, line, HEADER_END, 0);
    HeaderEnds(p.header, afterHeader);
    var r := IndexOf(line, HEADER_END, 0);
    CutFrom(buf, sep, 0, 2, 2 + r);
    if r == |p.header| {
      assert buf == CRLF + p.header + HEADER_END + afterHeader;
      WholeHeader(p.header, p.data, boundary, rest);
    }
  }

  lemma FirstThenRest(buf: Bytes, k: nat, rest: Bytes, separator: Bytes, start: nat, pos: nat, cut: Cut)
    requires Suffix(buf, k, rest) && NextCut(buf, separator, start) == Some(Found(cut, k + pos))
    ensures ScanFrom(buf, separator, start) == [cut] + ScanFrom(rest, separator, pos)
  {
    hide NextCut;
    ScanShifts(buf, k, rest, separator, pos);
  }

  /** After a carriable first part the scan goes on with the rest. */
  lemma ScanTailCons(parts: seq<Cut>, boundary: Bytes, epilogue: Bytes)
    requires NoCR(boundary) && parts != [] && Carriable(parts[0], boundary)
    ensures ScanFrom(Tail(parts, boundary, epilogue), Separator(boundary), 0)
         == [parts[0]] + ScanFrom(Tail(parts[1..], boundary, epilogue), Separator(boundary), 0)
  {
    var (buf, sep) := (Tail(parts, boundary, epilogue), Separator(boundary));
    var rest := Tail(parts[1..], boundary, epilogue);
    FirstCut(parts, boundary, epilogue);
    TailEndsWithRest(parts, boundary, epilogue);
    var next := NextCut(buf, sep, 0).value.next;
    FirstThenRest(buf, next, rest, sep, 0, 0, parts[0]);
  }

  /** The round trip on what follows a boundary. */
  lemma {:induction false} TailScans(parts: seq<Cut>, boundary: Bytes, epilogue: Bytes)
    requires NoCR(boundary)
    ensures ScanFrom(Tail(parts, boundary, epilogue), Separator(boundary), 0) == parts
       <==> forall i :: 0 <= i < |parts| ==> Carriable(parts[i], boundary)
    decreases |parts|
  {
    var (buf, sep) := (Tail(parts, boundary, epilogue), Separator(boundary));
    if parts == [] {
      PairAt(buf, DASH, DASH, 0);
    } else {
      FirstCut(parts, boundary, epilogue);
      TailScans(parts[1..], boundary, epilogue);
      assert forall i :: 0 <= i < |parts| - 1 ==> parts[1..][i] == parts[i + 1];
      if Carriable(parts[0], boundary) {
        ScanTailCons(parts, boundary, epilogue);
        ConsEqual(parts[0], ScanFrom(Tail(parts[1..], boundary, epilogue), sep, 0), parts);
      }
    }
  }

  lemma ConsEqual(x: Cut, tail: seq<Cut>, s: seq<Cut>)
    requires s != [] && s[0] == x
    ensures [x] + tail == s <==> tail == s[1..]
  {
    assert s == [x] + s[1..];
    assert ([x] + tail)[1..] == tail;
  }

  lemma TailEndsWithRest(parts: seq<Cut>, boundary: Bytes, epilogue: Bytes)
    requires parts != []
    ensures var (buf, rest) := (Tail(parts, boundary, epilogue), Tail(parts[1..], boundary, epilogue));
            |rest| <= |buf| && buf[|buf| - |rest|..] == rest
  {
    var (p, sep, rest) := (parts[0], Separator(boundary), Tail(parts[1..], boundary, epilogue));
    assert Tail(parts, boundary, epilogue) == (CRLF + p.header + HEADER_END + p.data + sep) + rest;
  }

  lemma BetweenStarts(buf: Bytes, opening: Bytes, separator: Bytes, i: nat)
    requires IndexOf(buf, opening, 0) == i
    ensures ScanBetween(buf, opening, separator) == ScanFrom(buf, separator, i + |opening|)
  {
  }

  lemma ScanStarts(buf: Bytes, k: nat, tail: Bytes, opening: Bytes, separator: Bytes, i: nat, pos: nat)
    requires Suffix(buf, k, tail) && IndexOf(buf, opening, 0) == i && i + |opening| == k + pos
    ensures ScanBetween(buf, opening, separator) == ScanFrom(tail, separator, pos)
  {
    hide NextCut;
    BetweenStarts(buf, opening, separator, i);
    ScanShifts(buf, k, tail, separator, pos);
  }

  /** A preamble that does not bring the first boundary forward is skipped. */
  lemma PreambleIsSkipped(preamble: Bytes, opening: Bytes, separator: Bytes, tail: Bytes)
    requires IndexOf(preamble + opening, opening, 0) == |preamble|
    ensures ScanBetween(preamble + (opening + tail), opening, separator) == ScanFrom(tail, separator, 0)
  {
    var head := preamble + opening;
    assert preamble + (opening + tail) == head + tail;
    FirstInPrefix(head, tail, opening);
    ScanStarts(head + tail, |head|, tail, opening, separator, |preamble|, 0);
  }

  /** The multipart round trip. For every list of parts, epilogue and preamble before the first
      boundary, and every boundary without CR: scanning the serialized body returns exactly
      those parts, in order, if and only if every part is carriable. */
  lemma RoundTrip(preamble: Bytes, parts: seq<Cut>, boundary: Bytes, epilogue: Bytes)
    requires NoCR(boundary)
    requires IndexOf(preamble + Opening(boundary), Opening(boundary), 0) == |preamble|
    ensures Scan(Serialize(preamble, parts, boundary, epilogue), boundary) == parts
       <==> forall i :: 0 <= i < |parts| ==> Carriable(parts[i], boundary)
  {
    PreambleIsSkipped(preamble, Opening(boundary), Separator(boundary), Tail(parts, boundary, epilogue));
    TailScans(parts, boundary, epilogue);
  }

  /** What a form is made from. */
  datatype Item = Field(name: string, value: string) | Upload(file: FormFile)

  /** `cut` carries `item`: `x` reads it back from the header text and the data. */
  predicate Carries(x: Extract, cut: Cut, item: Item) {
    match item
    case Field(name, value) => x.name(cut.header) == Some(name) && IsField(x, cut) && x.text(cut.data) == value
    case Upload(file) =>
      && x.name(cut.header) == Some(file.name) && x.filename(cut.header) == Some(file.filename)
      && x.contentType(cut.header) == Some(file.contentType) && cut.data == file.data
  }

  ghost predicate AllCarried(x: Extract, cuts: seq<Cut>, items: seq<Item>) {
    |cuts| == |items| && forall i :: 0 <= i < |items| ==> Carries(x, cuts[i], items[i])
  }

  /** The fields of a list of items, a later value over an earlier one of the same name. */
  function FieldsIn(items: seq<Item>): map<string, string> {
    if items == [] then map[]
    else
      var (before, last) := (FieldsIn(items[..|items| - 1]), items[|items| - 1]);
      if last.Field? then before[last.name := last.value] else before
  }

  function FilesIn(items: seq<Item>): seq<FormFile> {
    if items == [] then []
    else
      var (before, last) := (FilesIn(items[..|items| - 1]), items[|items| - 1]);
      if last.Upload? then before + [last.file] else before
  }

  lemma {:induction false} CarriedForm(x: Extract, cuts: seq<Cut>, items: seq<Item>)
    requires AllCarried(x, cuts, items)
    ensures FormOf(x, ParsedForm(map[], []), cuts) == ParsedForm(FieldsIn(items), FilesIn(items))
    decreases |cuts|
  {
    if cuts != [] {
      var (front, last) := (cuts[..|cuts| - 1], cuts[|cuts| - 1]);
      assert cuts == front + [last];
      CarriedForm(x, front, items[..|items| - 1]);
      FormSnoc(x, ParsedForm(map[], []), front, last);
      assert Carries(x, last, items[|items| - 1]);
    }
  }

  /** Joined up: parsing a form that was serialized from fields and files gives back exactly those
      fields and files, if every part is carriable. */
  lemma FormRoundTrip(x: Extract, items: seq<Item>, preamble: Bytes, parts: seq<Cut>, boundary: Bytes, epilogue: Bytes)
    requires NoCR(boundary) && AllCarried(x, parts, items)
    requires IndexOf(preamble + Opening(boundary), Opening(boundary), 0) == |preamble|
    requires forall i :: 0 <= i < |parts| ==> Carriable(parts[i], boundary)
    ensures FormOf(x, ParsedForm(map[], []), Scan(Serialize(preamble, parts, boundary, epilogue), boundary))
         == ParsedForm(FieldsIn(items), FilesIn(items))
  {
    hide Scan, Serialize, FormOf, FieldsIn, FilesIn, AllCarried;
    RoundTrip(preamble, parts, boundary, epilogue);
    CarriedForm(x, parts, items);
  }

  /** A pattern found in a prefix is found there in the whole. */
  lemma FirstInPrefix(a: Bytes, b: Bytes, pat: Bytes)
    requires IndexOf(a, pat, 0) != -1
    ensures IndexOf(a + b, pat, 0) == IndexOf(a, pat, 0)
  {
    var r := IndexOf(a, pat, 0);
    forall i | 0 <= i && i + |pat| <= |a| ensures At(a + b, pat, i) <==> At(a, pat, i) {
      assert (a + b)[i..i + |pat|] == a[i..i + |pat|];
    }
    FirstIsIndex(a + b, pat, 0, r);
  }
}
