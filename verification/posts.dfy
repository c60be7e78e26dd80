/** The post record and `parse_row`, which folds the XML events of one input
    line into a `Row` (parse_history_xml/src/main.rs). */
module Posts {
  import opened Wrappers
  import opened Text

  /** Rust's `u8`, `u32` and `i32`: the widths of the `Row` fields. */
  type U8 = n: int | 0 <= n < 0x100
  type U32 = n: int | 0 <= n < 0x1_0000_0000
  type I32 = n: int | -0x8000_0000 <= n < 0x8000_0000

  /** The part of a post that depends on its kind (`ExclusiveData`). */
  datatype ExclusiveData =
    | Question(title: string, acceptedAnswerId: Option<U32>, answerCount: U32)
    | Answer(parentId: U32)

  /** One parsed post (`Row`). */
  datatype Row = Row(id: U32, postTypeId: U8, score: I32, viewCount: U32, body: string, data: ExclusiveData)

  /** One attribute of an element as the XML reader yields it: its local
      name with its raw, still escaped value, or one the reader could not
      read (which `filter_map(|x| x.ok())` drops). */
  datatype Attribute = Attribute(name: string, raw: string) | Malformed

  /** One event of the XML reader over a line. The end of the sequence
      stands for the reader's end-of-input event. */
  datatype Event =
    | Empty(attributes: seq<Attribute>)  // a self-closing element, `<row ... />`
    | Other                              // any other event: a tag, text, a declaration, end of input
    | ReadError                          // `read_event` returned an error

  /** The library calls `parse_row` makes and this model leaves
      uninterpreted: the XML reader, entity unescaping, `str::parse` at the
      three integer widths, and `dissolve::strip_html_tags`. Every property
      below holds whatever these functions are. */
  datatype Env = Env(
    tokenise: string -> seq<Event>,
    unescape: string -> Option<string>,
    parseU8: string -> Option<U8>,
    parseU32: string -> Option<U32>,
    parseI32: string -> Option<I32>,
    stripHtml: string -> seq<string>)

  /** The local variables `parse_row` collects attribute values into. */
  datatype Fields = Fields(
    id: U32, postTypeId: U8, score: I32, viewCount: U32, title: string,
    acceptedAnswerId: Option<U32>, parentId: U32, body: string, answerCount: U32)

  /** Their values before any attribute is read. */
  const Initial := Fields(0, 0, 0, 0, "", None, 0, "", 0)

  // Decoding one raw attribute value: unescape, then parse. `.ok()?` on
  // either step gives `None`.

  function DecodeU8(env: Env, raw: string): Option<U8>
  {
    var u :- env.unescape(raw);
    env.parseU8(u)
  }

  function DecodeU32(env: Env, raw: string): Option<U32>
  {
    var u :- env.unescape(raw);
    env.parseU32(u)
  }

  function DecodeI32(env: Env, raw: string): Option<I32>
  {
    var u :- env.unescape(raw);
    env.parseI32(u)
  }

  /** Parsing a `String` cannot fail, so only unescaping can. */
  function DecodeText(env: Env, raw: string): Option<string>
  {
    env.unescape(raw)
  }

  /** `AcceptedAnswerId` keeps `parse().ok()` without `?`: an unescape
      failure aborts, a parse failure yields an absent id. */
  function DecodeOptionalU32(env: Env, raw: string): Option<Option<U32>>
  {
    var u :- env.unescape(raw);
    Some(env.parseU32(u))
  }

  /** Reading attribute `a` aborts the whole record: it is a recognised
      attribute whose value does not decode at its field's type. */
  predicate Rejects(env: Env, a: Attribute)
  {
    match a
    case Malformed => false
    case Attribute(name, raw) =>
      || (name in {"Id", "ViewCount", "AnswerCount", "ParentId"} && DecodeU32(env, raw).None?)
      || (name == "PostTypeId" && DecodeU8(env, raw).None?)
      || (name == "Score" && DecodeI32(env, raw).None?)
      || (name in {"Title", "Body"} && DecodeText(env, raw).None?)
      || (name == "AcceptedAnswerId" && DecodeOptionalU32(env, raw).None?)
  }

  /** `f` and `g` agree on the field attribute `name` sets. */
  predicate SameField(f: Fields, g: Fields, name: string)
  {
    if name == "Id" then f.id == g.id
    else if name == "PostTypeId" then f.postTypeId == g.postTypeId
    else if name == "Score" then f.score == g.score
    else if name == "ViewCount" then f.viewCount == g.viewCount
    else if name == "AnswerCount" then f.answerCount == g.answerCount
    else if name == "Title" then f.title == g.title
    else if name == "Body" then f.body == g.body
    else if name == "ParentId" then f.parentId == g.parentId
    else if name == "AcceptedAnswerId" then f.acceptedAnswerId == g.acceptedAnswerId
    else true
  }

  /** `g` agrees with `f` on every field other than the one `name` sets. */
  ghost predicate SameExcept(f: Fields, g: Fields, name: string)
  {
    forall n :: n != name ==> SameField(f, g, n)
  }

  /** The field attribute `name` sets holds in `g` the decoded `raw`. */
  predicate Decoded(env: Env, g: Fields, name: string, raw: string)
  {
    if name == "Id" then DecodeU32(env, raw) == Some(g.id)
    else if name == "PostTypeId" then DecodeU8(env, raw) == Some(g.postTypeId)
    else if name == "Score" then DecodeI32(env, raw) == Some(g.score)
    else if name == "ViewCount" then DecodeU32(env, raw) == Some(g.viewCount)
    else if name == "AnswerCount" then DecodeU32(env, raw) == Some(g.answerCount)
    else if name == "Title" then DecodeText(env, raw) == Some(g.title)
    else if name == "Body" then DecodeText(env, raw) == Some(g.body)
    else if name == "ParentId" then DecodeU32(env, raw) == Some(g.parentId)
    else if name == "AcceptedAnswerId" then DecodeOptionalU32(env, raw) == Some(g.acceptedAnswerId)
    else true
  }

  /** One pass of the attribute loop: store the decoded value of a
      recognised attribute in its field, or abort the record. */
  function ApplyAttr(env: Env, f: Fields, a: Attribute): (r: Option<Fields>)
    ensures r.None? <==> Rejects(env, a)
    ensures r.Some? && a.Malformed? ==> r.value == f
    ensures r.Some? && a.Attribute? ==> SameExcept(f, r.value, a.name) && Decoded(env, r.value, a.name, a.raw)
  {
    if a.Malformed? then Some(f)
    else if a.name == "Id" then var n :- DecodeU32(env, a.raw); Some(f.(id := n))
    else if a.name == "PostTypeId" then var n :- DecodeU8(env, a.raw); Some(f.(postTypeId := n))
    else if a.name == "Score" then var n :- DecodeI32(env, a.raw); Some(f.(score := n))
    else if a.name == "ViewCount" then var n :- DecodeU32(env, a.raw); Some(f.(viewCount := n))
    else if a.name == "AnswerCount" then var n :- DecodeU32(env, a.raw); Some(f.(answerCount := n))
    else if a.name == "Title" then var t :- DecodeText(env, a.raw); Some(f.(title := t))
    else if a.name == "Body" then var t :- DecodeText(env, a.raw); Some(f.(body := t))
    else if a.name == "ParentId" then var n :- DecodeU32(env, a.raw); Some(f.(parentId := n))
    else if a.name == "AcceptedAnswerId" then
      var o :- DecodeOptionalU32(env, a.raw); Some(f.(acceptedAnswerId := o))
    else Some(f)
  }

  /** The raw value of the last well-formed attribute named `name`, if any. */
  function LastRaw(attrs: seq<Attribute>, name: string): Option<string>
  {
    if |attrs| == 0 then None
    else LastRaw(attrs[1..], name).Or(
      if attrs[0].Attribute? && attrs[0].name == name then Some(attrs[0].raw) else None)
  }

  /** `a` is a well-formed attribute named `name`. */
  predicate Names(a: Attribute, name: string)
  {
    a.Attribute? && a.name == name
  }

  /** `LastRaw` finds the value of the last attribute of that name. */
  lemma {:induction false} LastRawIsLast(attrs: seq<Attribute>, name: string)
    ensures LastRaw(attrs, name).None? <==> forall i :: 0 <= i < |attrs| ==> !Names(attrs[i], name)
    ensures LastRaw(attrs, name).Some? ==>
      exists i :: 0 <= i < |attrs| && Names(attrs[i], name) && attrs[i].raw == LastRaw(attrs, name).value
                  && forall j :: i < j < |attrs| ==> !Names(attrs[j], name)
  {
    if |attrs| > 0 {
      LastRawIsLast(attrs[1..], name);
      var rest := attrs[1..];
      assert forall j :: 1 <= j < |attrs| ==> attrs[j] == rest[j - 1];
      if LastRaw(rest, name).Some? {
        var i :| 0 <= i < |rest| && Names(rest[i], name) && rest[i].raw == LastRaw(rest, name).value
                 && forall j :: i < j < |rest| ==> !Names(rest[j], name);
        assert Names(attrs[i + 1], name);
      } else if Names(attrs[0], name) {
        assert forall j :: 0 < j < |attrs| ==> !Names(attrs[j], name);
      }
    }
  }

  /** Field `name` of `g` is settled by `attrs` starting from `f`: the
      decoded value of the last attribute of that name, or `f`'s value if
      there is none. */
  predicate SettledOn(env: Env, f: Fields, g: Fields, attrs: seq<Attribute>, name: string)
  {
    match LastRaw(attrs, name)
    case None => SameField(f, g, name)
    case Some(raw) => Decoded(env, g, name, raw)
  }

  predicate Settled(env: Env, f: Fields, g: Fields, attrs: seq<Attribute>)
  {
    && SettledOn(env, f, g, attrs, "Id")
    && SettledOn(env, f, g, attrs, "PostTypeId")
    && SettledOn(env, f, g, attrs, "Score")
    && SettledOn(env, f, g, attrs, "ViewCount")
    && SettledOn(env, f, g, attrs, "AnswerCount")
    && SettledOn(env, f, g, attrs, "Title")
    && SettledOn(env, f, g, attrs, "Body")
    && SettledOn(env, f, g, attrs, "ParentId")
    && SettledOn(env, f, g, attrs, "AcceptedAnswerId")
  }

  /** One attribute followed by the rest settles field `name` as the rest
      does, or as the attribute does when the rest does not name it. */
  lemma SettledOnCons(env: Env, f: Fields, g: Fields, h: Fields, attrs: seq<Attribute>, name: string)
    requires |attrs| > 0 && ApplyAttr(env, f, attrs[0]) == Some(g)
    requires SettledOn(env, g, h, attrs[1..], name)
    ensures SettledOn(env, f, h, attrs, name)
  {
    if LastRaw(attrs[1..], name).None? && !Names(attrs[0], name) {
      assert SameField(f, g, name);
    }
  }

  lemma SettledCons(env: Env, f: Fields, g: Fields, h: Fields, attrs: seq<Attribute>)
    requires |attrs| > 0 && ApplyAttr(env, f, attrs[0]) == Some(g)
    requires Settled(env, g, h, attrs[1..])
    ensures Settled(env, f, h, attrs)
  {
    SettledOnCons(env, f, g, h, attrs, "Id");
    SettledOnCons(env, f, g, h, attrs, "PostTypeId");
    SettledOnCons(env, f, g, h, attrs, "Score");
    SettledOnCons(env, f, g, h, attrs, "ViewCount");
    SettledOnCons(env, f, g, h, attrs, "AnswerCount");
    SettledOnCons(env, f, g, h, attrs, "Title");
    SettledOnCons(env, f, g, h, attrs, "Body");
    SettledOnCons(env, f, g, h, attrs, "ParentId");
    SettledOnCons(env, f, g, h, attrs, "AcceptedAnswerId");
  }

  /** The attribute loop over one element: it aborts exactly when some
      attribute rejects, and otherwise every field ends up holding the
      value of the last attribute that names it. */
  function ApplyAttrs(env: Env, f: Fields, attrs: seq<Attribute>): (r: Option<Fields>)
    ensures r.None? <==> exists i :: 0 <= i < |attrs| && Rejects(env, attrs[i])
    ensures r.Some? ==> Settled(env, f, r.value, attrs)
    decreases |attrs|
  {
    if |attrs| == 0 then Some(f)
    else
      var g :- ApplyAttr(env, f, attrs[0]);
      var r := ApplyAttrs(env, g, attrs[1..]);
      assert forall j :: 1 <= j < |attrs| ==> attrs[j] == attrs[1..][j - 1];
      if r.Some? then SettledCons(env, f, g, r.value, attrs); r else r
  }

  /** Running the loop over `a + b` is running it over `a`, then over `b`. */
  lemma {:induction false} ApplyAttrsAppend(env: Env, f: Fields, a: seq<Attribute>, b: seq<Attribute>)
    ensures ApplyAttrs(env, f, a + b) ==
            match ApplyAttrs(env, f, a)
            case None => None
            case Some(g) => ApplyAttrs(env, g, b)
    decreases |a|
  {
    if |a| == 0 {
      assert a + b == b;
    } else {
      assert (a + b)[0] == a[0] && (a + b)[1..] == a[1..] + b;
      match ApplyAttr(env, f, a[0])
      case None =>
      case Some(g) => ApplyAttrsAppend(env, g, a[1..], b);
    }
  }

  /** The attributes of the leading run of self-closing elements: the ones
      `parse_row` reads before the first other event. */
  function Reached(events: seq<Event>): seq<Attribute>
  {
    if |events| == 0 || !events[0].Empty? then [] else events[0].attributes + Reached(events[1..])
  }

  /** The leading run of self-closing elements ends in a read error. */
  predicate HitsReadError(events: seq<Event>)
  {
    |events| > 0 && (events[0].ReadError? || (events[0].Empty? && HitsReadError(events[1..])))
  }

  /** The event loop of `parse_row` (lines 36-70): a read error gives
      `None`, a self-closing element runs the attribute loop, any other
      event ends the loop. It amounts to one attribute loop over every
      attribute read before the first other event. */
  function Scan(env: Env, f: Fields, events: seq<Event>): (r: Option<Fields>)
    ensures r == if HitsReadError(events) then None else ApplyAttrs(env, f, Reached(events))
    decreases |events|
  {
    if |events| == 0 then Some(f)
    else match events[0]
      case ReadError => None
      case Other => Some(f)
      case Empty(attrs) =>
        ApplyAttrsAppend(env, f, attrs, Reached(events[1..]));
        var g :- ApplyAttrs(env, f, attrs);
        Scan(env, g, events[1..])
  }

  /** Rust's `strip_html_tags(s).join("")`. */
  function StripHtml(env: Env, s: string): string
  {
    Concat(env.stripHtml(s))
  }

  /** Lines 71-92: strip the HTML from body and title, then build the
      payload: post type 1 is a question, every other type an answer. */
  function Assemble(env: Env, f: Fields): Row
  {
    var body := StripHtml(env, f.body);
    var title := StripHtml(env, f.title);
    if f.postTypeId == 1 then
      Row(f.id, f.postTypeId, f.score, f.viewCount, body, Question(title, f.acceptedAnswerId, f.answerCount))
    else
      Row(f.id, f.postTypeId, f.score, f.viewCount, body, Answer(f.parentId))
  }

  /** The attributes `parse_row` reads from `line`. */
  function ReachedOf(env: Env, line: string): seq<Attribute>
  {
    Reached(env.tokenise(line))
  }

  /** `parse_row`: `None` exactly when the reader fails before the first
      event that is not a self-closing element, or a reached attribute
      fails to decode; otherwise a row whose payload is a question exactly
      when its post type id is 1. */
  function ParseRow(env: Env, line: string): (r: Option<Row>)
    ensures r.None? <==>
      || HitsReadError(env.tokenise(line))
      || exists i :: 0 <= i < |ReachedOf(env, line)| && Rejects(env, ReachedOf(env, line)[i])
    ensures r.Some? ==> (r.value.data.Question? <==> r.value.postTypeId == 1)
  {
    var s := Scan(env, Initial, env.tokenise(line));
    assert s.None? <==> HitsReadError(env.tokenise(line)) || ApplyAttrs(env, Initial, ReachedOf(env, line)).None?;
    var f :- s;
    Some(Assemble(env, f))
  }

  /** The fields `parse_row` assembles its row from, when it succeeds:
      each is settled by the attributes it reads, starting from `Initial`. */
  function ParsedFields(env: Env, line: string): (f: Fields)
    requires ParseRow(env, line).Some?
    ensures ParseRow(env, line) == Some(Assemble(env, f))
    ensures Settled(env, Initial, f, ReachedOf(env, line))
  {
    Scan(env, Initial, env.tokenise(line)).value
  }

  lemma AssembleFields(env: Env, f: Fields)
    ensures var r := Assemble(env, f);
      && r.id == f.id && r.postTypeId == f.postTypeId && r.score == f.score && r.viewCount == f.viewCount
      && r.body == StripHtml(env, f.body)
      && (r.data.Question? <==> f.postTypeId == 1)
      && (r.data.Question? ==> r.data == Question(StripHtml(env, f.title), f.acceptedAnswerId, f.answerCount))
      && (r.data.Answer? ==> r.data.parentId == f.parentId)
  {
  }

  /** A field whose attribute `parse_row` never reads keeps its initial
      value: 0, the empty string (before HTML stripping) or `None`. */
  lemma AbsentAttributeKeepsDefault(env: Env, line: string)
    requires ParseRow(env, line).Some?
    ensures var r, R := ParseRow(env, line).value, ReachedOf(env, line);
      && (LastRaw(R, "Id").None? ==> r.id == 0)
      && (LastRaw(R, "PostTypeId").None? ==> r.postTypeId == 0 && r.data.Answer?)
      && (LastRaw(R, "Score").None? ==> r.score == 0)
      && (LastRaw(R, "ViewCount").None? ==> r.viewCount == 0)
      && (LastRaw(R, "Body").None? ==> r.body == StripHtml(env, ""))
      && (LastRaw(R, "Title").None? && r.data.Question? ==> r.data.title == StripHtml(env, ""))
      && (LastRaw(R, "AcceptedAnswerId").None? && r.data.Question? ==> r.data.acceptedAnswerId.None?)
      && (LastRaw(R, "AnswerCount").None? && r.data.Question? ==> r.data.answerCount == 0)
      && (LastRaw(R, "ParentId").None? && r.data.Answer? ==> r.data.parentId == 0)
  {
    var f := ParsedFields(env, line);
    AssembleFields(env, f);
  }

  /** A field whose attribute `parse_row` reads holds the decoded value of
      its last occurrence: later attributes overwrite earlier ones. A bad
      `AcceptedAnswerId` number leaves the record standing with no id. */
  lemma LastAttributeWins(env: Env, line: string)
    requires ParseRow(env, line).Some?
    ensures var r, R := ParseRow(env, line).value, ReachedOf(env, line);
      && (LastRaw(R, "Id").Some? ==> DecodeU32(env, LastRaw(R, "Id").value) == Some(r.id))
      && (LastRaw(R, "PostTypeId").Some? ==> DecodeU8(env, LastRaw(R, "PostTypeId").value) == Some(r.postTypeId))
      && (LastRaw(R, "Score").Some? ==> DecodeI32(env, LastRaw(R, "Score").value) == Some(r.score))
      && (LastRaw(R, "ViewCount").Some? ==> DecodeU32(env, LastRaw(R, "ViewCount").value) == Some(r.viewCount))
      && (LastRaw(R, "Body").Some? ==>
            DecodeText(env, LastRaw(R, "Body").value).Some?
            && r.body == StripHtml(env, DecodeText(env, LastRaw(R, "Body").value).value))
      && (LastRaw(R, "Title").Some? && r.data.Question? ==>
            DecodeText(env, LastRaw(R, "Title").value).Some?
            && r.data.title == StripHtml(env, DecodeText(env, LastRaw(R, "Title").value).value))
      && (LastRaw(R, "AcceptedAnswerId").Some? && r.data.Question? ==>
            DecodeOptionalU32(env, LastRaw(R, "AcceptedAnswerId").value) == Some(r.data.acceptedAnswerId))
      && (LastRaw(R, "AnswerCount").Some? && r.data.Question? ==>
            DecodeU32(env, LastRaw(R, "AnswerCount").value) == Some(r.data.answerCount))
      && (LastRaw(R, "ParentId").Some? && r.data.Answer? ==>
            DecodeU32(env, LastRaw(R, "ParentId").value) == Some(r.data.parentId))
  {
    var f := ParsedFields(env, line);
    var R := ReachedOf(env, line);
    AssembleFields(env, f);
    assert SettledOn(env, Initial, f, R, "Id") && SettledOn(env, Initial, f, R, "PostTypeId");
    assert SettledOn(env, Initial, f, R, "Score") && SettledOn(env, Initial, f, R, "ViewCount");
    assert SettledOn(env, Initial, f, R, "Body") && SettledOn(env, Initial, f, R, "Title");
    assert SettledOn(env, Initial, f, R, "AcceptedAnswerId") && SettledOn(env, Initial, f, R, "AnswerCount");
    assert SettledOn(env, Initial, f, R, "ParentId");
  }

  /** Whatever follows the first event that is not a self-closing element
      is never read. */
  lemma {:induction false} ScanStopsAtOtherEvent(env: Env, f: Fields, events: seq<Event>, i: nat)
    requires i < |events| && events[i].Other?
    requires forall j :: 0 <= j < i ==> events[j].Empty?
    ensures Scan(env, f, events) == Scan(env, f, events[..i])
    decreases i
  {
    if i > 0 {
      assert events[..i][0] == events[0] && events[..i][1..] == events[1..][..i - 1];
      match ApplyAttrs(env, f, events[0].attributes)
      case None =>
      case Some(g) => ScanStopsAtOtherEvent(env, g, events[1..], i - 1);
    }
  }

  /** A line whose first event is not a self-closing element still parses,
      to a row with every field at its default: an answer with post type 0
      and score 0. */
  lemma NonElementLineGivesDefaults(env: Env, line: string)
    requires |env.tokenise(line)| == 0 || env.tokenise(line)[0].Other?
    ensures ParseRow(env, line) == Some(Row(0, 0, 0, 0, StripHtml(env, ""), Answer(0)))
  {
  }
}
