/**
 * The request logic of handlers.go that is not HTTP plumbing: assembling the
 * parts of a multipart upload, honouring read limits, choosing between update
 * and create, routing a path, and expiring a snippet on its last read.
 */
module Handlers {
  import opened Wrappers
  import opened Text
  import Store
  import Counter

  /** The form keys handlers.go builds with Sprintf: `f:i`, `name:i`, `ext:i`, `read:i`, `id:i`, and `rm`. */
  datatype Key = FileKey(i: int) | NameKey(i: int) | ExtKey(i: int) | ReadKey(i: int) | IdKey(i: int) | RmKey

  /** An uploaded file: its name and its bytes, `None` when it cannot be opened or read. */
  datatype Upload = Upload(filename: string, content: Option<string>)

  /** A parsed multipart form: the text fields and the uploaded files, by key. */
  datatype Form = Form(values: map<Key, string>, files: map<Key, seq<Upload>>)

  /** r.FormValue: the field's value, "" when absent. */
  function FormValue(form: Form, k: Key): (v: string)
    ensures k in form.values ==> v == form.values[k]
    ensures k !in form.values ==> v == ""
  {
    if k in form.values then form.values[k] else ""
  }

  /** The uploads under a key, none when absent. */
  function UploadsAt(form: Form, k: Key): seq<Upload>
  {
    if k in form.files then form.files[k] else []
  }

  // ----- Decimal numbers: Sprintf("%d") and strconv.Atoi -----

  const MaxInt: int := 0x7FFF_FFFF_FFFF_FFFF
  const MinInt: int := -0x8000_0000_0000_0000

  predicate IsDigit(c: char)
  {
    '0' <= c <= '9'
  }

  predicate AllDigits(s: string)
  {
    forall k :: 0 <= k < |s| ==> IsDigit(s[k])
  }

  /** The number a string of decimal digits stands for. */
  function DigitsValue(s: string): nat
    requires AllDigits(s)
  {
    if s == [] then 0 else DigitsValue(s[..|s| - 1]) * 10 + (s[|s| - 1] as int - '0' as int)
  }

  /** Sprintf("%d", n) for a non-negative n. */
  function Decimal(n: nat): (s: string)
    ensures |s| >= 1 && AllDigits(s)
  {
    if n < 10 then ['0' + n as char] else Decimal(n / 10) + ['0' + (n % 10) as char]
  }

  /**
   * strconv.Atoi: an optional sign, then one or more decimal digits, whose
   * value must fit in a 64-bit int; anything else is an error.
   */
  function Atoi(s: string): (r: Option<int>)
    ensures r.Some? ==> MinInt <= r.value <= MaxInt
    ensures s == [] ==> r.None?
  {
    if s == [] then None
    else
      var digits := if s[0] == '-' || s[0] == '+' then s[1..] else s;
      if digits == [] || !AllDigits(digits) then None
      else
        var v: int := if s[0] == '-' then -(DigitsValue(digits) as int) else DigitsValue(digits);
        if MinInt <= v <= MaxInt then Some(v) else None
  }

  /** Reading back what Sprintf("%d") wrote gives the number. */
  lemma {:induction false} DigitsValueOfDecimal(n: nat)
    ensures DigitsValue(Decimal(n)) == n
  {
    if n >= 10 {
      DigitsValueOfDecimal(n / 10);
      var s := Decimal(n);
      assert s[..|s| - 1] == Decimal(n / 10);
    }
  }

  lemma AtoiDecimal(n: nat)
    requires n <= MaxInt
    ensures Atoi(Decimal(n)) == Some(n)
  {
    DigitsValueOfDecimal(n);
    assert IsDigit(Decimal(n)[0]);
  }

  /** A read limit is honoured only when `read:i` holds a positive integer (handlers.go:116-117). */
  function ReadLimit(form: Form, i: int): (r: Option<int>)
    ensures r.Some? ==> r.value > 0 && Atoi(FormValue(form, ReadKey(i))) == Some(r.value)
    ensures r.None? ==> Atoi(FormValue(form, ReadKey(i))).None? || Atoi(FormValue(form, ReadKey(i))).value <= 0
  {
    var v := FormValue(form, ReadKey(i));
    if v == "" then None
    else
      match Atoi(v)
      case Some(n) => if n > 0 then Some(n) else None
      case None => None
  }

  /** A read limit written as a positive decimal is honoured as that number. */
  lemma ReadLimitOfDecimal(form: Form, i: int, n: nat)
    requires 0 < n <= MaxInt && FormValue(form, ReadKey(i)) == Decimal(n)
    ensures ReadLimit(form, i) == Some(n)
  {
    AtoiDecimal(n);
  }

  /** The limits found at indices 1 .. n, in the order the loop meets them. */
  function ReadLimits(form: Form, n: nat): (limits: seq<int>)
    ensures forall k :: 0 <= k < |limits| ==> limits[k] > 0
  {
    if n == 0 then []
    else
      var r := ReadLimit(form, n);
      ReadLimits(form, n - 1) + (if r.Some? then [r.value] else [])
  }

  // ----- One part of an upload: processFileOrContent -----

  /**
   * The extension of a part (handlers.go:181-188): absent stays "", a value
   * without a leading "." gets one.
   */
  function NormaliseExt(value: string): (ext: string)
    ensures value == "" <==> ext == ""
    ensures value != "" ==> HasPrefix(ext, ".")
    ensures HasPrefix(value, ".") ==> ext == value
    ensures value != "" && !HasPrefix(value, ".") ==> ext == "." + value
  {
    if value == "" then ""
    else if !HasPrefix(value, ".") then "." + value
    else value
  }

  lemma NormaliseExtIdempotent(value: string)
    ensures NormaliseExt(NormaliseExt(value)) == NormaliseExt(value)
  {
  }

  /** What the form holds at index i. */
  datatype Part =
    | Absent                                           // neither a file nor a non-empty field `f:i`
    | Unreadable                                       // a file that cannot be opened or read: skipped
    | Present(name: string, ext: string, body: string)

  /** The default name of part i (handlers.go:176). */
  function DefaultName(i: nat): string
  {
    "File " + Decimal(i)
  }

  /**
   * The part at index i (handlers.go:174-228): an uploaded file wins over a
   * field of the same key; the name is `name:i`, else the uploaded file's own
   * name, else "File i".
   */
  function PartAt(form: Form, i: nat): (p: Part)
    ensures |UploadsAt(form, FileKey(i))| > 0 ==> !p.Absent?
    ensures p.Unreadable? <==> |UploadsAt(form, FileKey(i))| > 0 && UploadsAt(form, FileKey(i))[0].content.None?
    ensures |UploadsAt(form, FileKey(i))| > 0 && p.Present? ==> Some(p.body) == UploadsAt(form, FileKey(i))[0].content
    ensures |UploadsAt(form, FileKey(i))| == 0 ==> (p.Absent? <==> FormValue(form, FileKey(i)) == "")
    ensures |UploadsAt(form, FileKey(i))| == 0 && p.Present? ==> p.body == FormValue(form, FileKey(i))
    ensures p.Present? ==> p.ext == NormaliseExt(FormValue(form, ExtKey(i)))
    ensures p.Present? && FormValue(form, NameKey(i)) != "" ==> p.name == FormValue(form, NameKey(i))
    ensures p.Present? && FormValue(form, NameKey(i)) == "" ==>
      p.name == if |UploadsAt(form, FileKey(i))| > 0 && UploadsAt(form, FileKey(i))[0].filename != ""
                then UploadsAt(form, FileKey(i))[0].filename else DefaultName(i)
  {
    var given := FormValue(form, NameKey(i));
    var name := if given != "" then given else DefaultName(i);
    var ext := NormaliseExt(FormValue(form, ExtKey(i)));
    var uploads := UploadsAt(form, FileKey(i));
    if |uploads| > 0 then
      if uploads[0].content.None? then Unreadable
      else Present(if given == "" && uploads[0].filename != "" then uploads[0].filename else name, ext, uploads[0].content.value)
    else if FormValue(form, FileKey(i)) != "" then Present(name, ext, FormValue(form, FileKey(i)))
    else Absent
  }

  /** The banner that separates part i from the one before it (handlers.go:210-213, 220-223). */
  function Banner(name: string, ext: string): string
  {
    "\n\n--- " + name + ext + " ---\n\n"
  }

  /** What part i adds to the snippet: its body, after a banner unless it is the first part. */
  function Contribution(i: nat, p: Part): string
  {
    if !p.Present? then ""
    else if i > 1 then Banner(p.name, p.ext) + p.body
    else p.body
  }

  /** The writes of one present part (handlers.go:210-213, 220-223): a banner unless it is the first, then the body. */
  method WritePart(content: string, i: nat, name: string, ext: string, body: string) returns (content': string)
    ensures content' == content + Contribution(i, Present(name, ext, body))
  {
    content' := content;
    if i > 1 {
      content' := content' + Banner(name, ext);
    }
    content' := content' + body;
  }

  /**
   * processFileOrContent (handlers.go:174-228): appends part i, if any, to
   * the content built so far; `more` says whether there was a file or field
   * at i (even an unreadable file), and `processed` becomes true then.
   */
  method ProcessFileOrContent(form: Form, i: nat, content: string, processed: bool)
    returns (more: bool, content': string, processed': bool)
    ensures more <==> !PartAt(form, i).Absent?
    ensures content' == content + Contribution(i, PartAt(form, i))
    ensures processed' == (processed || more)
  {
    var filename := DefaultName(i);
    var name := FormValue(form, NameKey(i));
    if name != "" {
      filename := name;
    }
    var ext := "";
    var extValue := FormValue(form, ExtKey(i));
    if extValue != "" {
      if !HasPrefix(extValue, ".") {
        ext := "." + extValue;
      } else {
        ext := extValue;
      }
    }
    assert ext == NormaliseExt(extValue);
    var files := UploadsAt(form, FileKey(i));
    if |files| > 0 {
      processed' := true;
      if files[0].content.None? {
        return true, content, processed';
      }
      if FormValue(form, NameKey(i)) == "" && files[0].filename != "" {
        filename := files[0].filename;
      }
      assert PartAt(form, i) == Present(filename, ext, files[0].content.value);
      content' := WritePart(content, i, filename, ext, files[0].content.value);
      return true, content', processed';
    } else if FormValue(form, FileKey(i)) != "" {
      processed' := true;
      assert PartAt(form, i) == Present(filename, ext, FormValue(form, FileKey(i)));
      content' := WritePart(content, i, filename, ext, FormValue(form, FileKey(i)));
      return true, content', processed';
    }
    assert content + Contribution(i, PartAt(form, i)) == content;
    return false, content, processed;
  }

  // ----- The part-assembly loop of handlePostRequest -----

  /** The file keys at index i or beyond that the form holds: a bound on how long the loop can run. */
  function Pending(form: Form, i: int): set<Key>
  {
    set k | k in form.values.Keys + form.files.Keys && k.FileKey? && k.i >= i
  }

  lemma PendingShrinks(form: Form, i: nat)
    requires !PartAt(form, i).Absent?
    ensures FileKey(i) in Pending(form, i) && Pending(form, i + 1) == Pending(form, i) - {FileKey(i)}
  {
  }

  /** The index of the last part: the loop stops at the first index after 1 with no part. */
  function LastPartFrom(form: Form, i: nat): (n: nat)
    requires i >= 1
    decreases |Pending(form, i)|
  {
    if PartAt(form, i).Absent? then i - 1
    else
      PendingShrinks(form, i);
      LastPartFrom(form, i + 1)
  }

  /** The number of parts of the form: 1 .. PartCount(form) all have one, the next has none. */
  function PartCount(form: Form): nat
  {
    LastPartFrom(form, 1)
  }

  lemma {:induction false} LastPartFromMeaning(form: Form, i: nat)
    requires i >= 1
    ensures i - 1 <= LastPartFrom(form, i)
    ensures forall j :: i <= j <= LastPartFrom(form, i) ==> !PartAt(form, j).Absent?
    ensures PartAt(form, LastPartFrom(form, i) + 1).Absent?
    decreases |Pending(form, i)|
  {
    if !PartAt(form, i).Absent? {
      PendingShrinks(form, i);
      LastPartFromMeaning(form, i + 1);
    }
  }

  /** Parts 1 .. PartCount(form) are there and the part after them is not: the loop runs to the first gap. */
  lemma PartCountMeaning(form: Form)
    ensures forall j :: 1 <= j <= PartCount(form) ==> !PartAt(form, j).Absent?
    ensures PartAt(form, PartCount(form) + 1).Absent?
  {
    LastPartFromMeaning(form, 1);
  }

  /** The content made of parts 1 .. n. */
  function Assembled(form: Form, n: nat): string
  {
    if n == 0 then "" else Assembled(form, n - 1) + Contribution(n, PartAt(form, n))
  }

  /** The first part comes without a banner. */
  lemma AssembledFirst(form: Form)
    ensures Assembled(form, 1) == if PartAt(form, 1).Present? then PartAt(form, 1).body else ""
  {
  }

  /** The read-limit check at the head of each round (handlers.go:115-126): a positive `read:i` is registered. */
  method NoteReadLimit(form: Form, i: nat, limits: seq<int>) returns (limits': seq<int>)
    ensures limits' == limits + (if ReadLimit(form, i).Some? then [ReadLimit(form, i).value] else [])
  {
    limits' := limits;
    var readValue := FormValue(form, ReadKey(i));
    if readValue != "" {
      var n := Atoi(readValue);
      if n.Some? && n.value > 0 {
        limits' := limits' + [n.value];
      }
    }
  }

  /**
   * The loop of handlePostRequest (handlers.go:109-135): for i = 1, 2, ...
   * it notes the read limit of `read:i`, then processes part i, and stops at
   * the first index with no part. The limits are those of every index it
   * visits, the stopping one included.
   */
  method AssembleParts(form: Form) returns (content: string, processed: bool, limits: seq<int>)
    ensures content == Assembled(form, PartCount(form))
    ensures processed <==> PartCount(form) >= 1
    ensures limits == ReadLimits(form, PartCount(form) + 1)
  {
    content, processed, limits := "", false, [];
    var i: nat := 1;
    ghost var count := PartCount(form);
    PartCountMeaning(form);
    while true
      invariant 1 <= i <= count + 1
      invariant content == Assembled(form, i - 1)
      invariant processed <==> i > 1
      invariant limits == ReadLimits(form, i - 1)
      decreases |Pending(form, i)|
    {
      limits := NoteReadLimit(form, i, limits);
      assert limits == ReadLimits(form, i);
      var more;
      more, content, processed := ProcessFileOrContent(form, i, content, processed);
      if !more {
        assert i == count + 1 && Contribution(i, PartAt(form, i)) == "";
        assert content == Assembled(form, i - 1);
        return;
      }
      assert i <= count && content == Assembled(form, i);
      PendingShrinks(form, i);
      i := i + 1;
    }
  }

  // ----- Read limits, applied when the handler returns -----

  /**
   * The deferred setMaxReads calls (handlers.go:120-125) run when the handler
   * returns, last registered first, and only for a non-empty final id: so the
   * limit that stays is the one from the lowest index.
   */
  method ApplyLimits(rc: Counter.ReadCounter, id: string, limits: seq<int>)
    modifies rc
    ensures rc.counts == old(rc.counts)
    ensures rc.maxReads == if id != "" && limits != [] then old(rc.maxReads)[id := limits[0]] else old(rc.maxReads)
  {
    var k := |limits|;
    while k > 0
      invariant 0 <= k <= |limits|
      invariant rc.counts == old(rc.counts)
      invariant rc.maxReads == if id != "" && k < |limits| then old(rc.maxReads)[id := limits[k]] else old(rc.maxReads)
    {
      k := k - 1;
      if id != "" {
        rc.SetMaxReads(id, limits[k]);
      }
    }
  }

  // ----- handlePostRequest -----

  datatype PostOutcome = Deleted(id: string) | Forbidden | Updated(id: string) | Created(id: string) | BadRequest

  /** The form names parts (and no `rm`), so the parts make the snippet. */
  predicate Submits(multipart: Option<Form>)
  {
    multipart.Some? && FormValue(multipart.value, RmKey) == "" && PartCount(multipart.value) >= 1
  }

  /** The read limits the handler registers: none when the form fails to parse or asks for a removal. */
  function RegisteredLimits(multipart: Option<Form>): seq<int>
  {
    if multipart.Some? && FormValue(multipart.value, RmKey) == "" then ReadLimits(multipart.value, PartCount(multipart.value) + 1)
    else []
  }

  /** handlers.go:140: an update is attempted when both a user and `id:1` are given. */
  predicate AttemptsUpdate(form: Form, username: string)
  {
    username != "" && FormValue(form, IdKey(1)) != ""
  }

  /**
   * The attempted update of handlers.go:141 succeeds: `id:1` is indexed, the
   * caller may update it, and the content is unchanged or its file is written.
   */
  predicate UpdateSucceeds(index: map<string, string>, owners: map<string, string>, passwords: map<string, string>,
                           hash: string -> string, form: Form, username: string, password: string, writeFails: bool)
  {
    var target := FormValue(form, IdKey(1));
    && AttemptsUpdate(form, username)
    && target in index && Store.MayUpdate(owners, passwords, target, username, password)
    && (index[target] == hash(Assembled(form, PartCount(form))) || !writeFails)
  }

  /**
   * The attempted update records the content's new hash (store.go:229-244):
   * `id:1` is indexed, the caller may update it, and its hash changes.
   */
  predicate UpdateRecords(index: map<string, string>, owners: map<string, string>, passwords: map<string, string>,
                          hash: string -> string, form: Form, username: string, password: string)
  {
    var target := FormValue(form, IdKey(1));
    && AttemptsUpdate(form, username)
    && target in index && Store.MayUpdate(owners, passwords, target, username, password)
    && index[target] != hash(Assembled(form, PartCount(form)))
  }

  /** The ids a submission may change: the resulting id, and `id:1` when an update was attempted. */
  function Touched(form: Form, username: string, id: string): set<string>
  {
    {id} + (if AttemptsUpdate(form, username) then {FormValue(form, IdKey(1))} else {})
  }

  /**
   * What handlers.go:137-156 leaves in the store's maps, from `*0` before to
   * the maps after, when `id` results and `updated` says whether by update:
   * an update that records a new hash gives `id:1` that hash, the caller as
   * owner with the password, and the content as its file; an update of
   * unchanged content changes nothing; a create is createSnippet on the maps
   * as they were, or, after an update that recorded its hash but could not
   * write the file, on the maps that update left.
   */
  ghost predicate FormEffect(index0: map<string, string>, owners0: map<string, string>, passwords0: map<string, string>,
                             files0: map<string, string>, index: map<string, string>, owners: map<string, string>,
                             passwords: map<string, string>, files: map<string, string>, hash: string -> string,
                             form: Form, username: string, password: string, id: string, updated: bool)
  {
    var content := Assembled(form, PartCount(form));
    var target := FormValue(form, IdKey(1));
    var records := UpdateRecords(index0, owners0, passwords0, hash, form, username, password);
    if updated && records then
      && index == index0[target := hash(content)] && files == files0[target := content]
      && owners == owners0[target := username] && passwords == passwords0[target := password]
    else if updated then
      index == index0 && owners == owners0 && passwords == passwords0 && files == files0
    else if records then
      Store.CreateEffect(index0[target := hash(content)], owners0[target := username], passwords0[target := password], files0,
                         index, owners, passwords, files, hash(content), content, username, password, id)
    else
      Store.CreateEffect(index0, owners0, passwords0, files0, index, owners, passwords, files,
                         hash(content), content, username, password, id)
  }

  /**
   * The choice of handlers.go:139-150: `id:1` is updated when a user is
   * given and the update succeeds; otherwise the content is created.
   */
  method UpdateOrCreate(store: Store.Store, form: Form, content: string, username: string, password: string, writeFails: bool)
    returns (id: string, updated: bool)
    requires content == Assembled(form, PartCount(form))
    modifies store
    ensures id in store.index && store.index[id] == store.hash(content)
    ensures updated <==>
      UpdateSucceeds(old(store.index), old(store.owners), old(store.passwords), store.hash, form, username, password, writeFails)
    ensures updated ==> id == FormValue(form, IdKey(1))
    ensures store.AgreesOff(old(store.index), old(store.owners), old(store.passwords), old(store.files), Touched(form, username, id))
    ensures !writeFails ==> store.AgreesOff(old(store.index), old(store.owners), old(store.passwords), old(store.files), {id})
    ensures FormEffect(old(store.index), old(store.owners), old(store.passwords), old(store.files),
                       store.index, store.owners, store.passwords, store.files, store.hash, form, username, password, id, updated)
  {
    var idValue := FormValue(form, IdKey(1));
    ghost var index0, owners0, passwords0, files0 := store.index, store.owners, store.passwords, store.files;
    if idValue != "" && username != "" {
      var ok := store.UpdateSnippet(idValue, content, username, password, writeFails);
      if ok {
        return idValue, true;
      }
    }
    ghost var index1, owners1, passwords1, files1 := store.index, store.owners, store.passwords, store.files;
    ghost var first: set<string> := if AttemptsUpdate(form, username) then {idValue} else {};
    assert store.AgreesOff(index0, owners0, passwords0, files0, first);
    id := store.CreateSnippet(content, username, password);
    Store.AgreeOffTrans(store.index, index1, index0, {id}, first);
    Store.AgreeOffTrans(store.owners, owners1, owners0, {id}, first);
    Store.AgreeOffTrans(store.passwords, passwords1, passwords0, {id}, first);
    Store.AgreeOffTrans(store.files, files1, files0, {id}, first);
    updated := false;
  }

  /**
   * The multipart branch of handlePostRequest once parts were processed
   * (handlers.go:137-156): the snippet named by `id:1` is updated when a user
   * is given and the update succeeds; otherwise a new snippet is created.
   * The deferred read limits then apply to the resulting id.
   */
  method SubmitForm(store: Store.Store, rc: Counter.ReadCounter, form: Form, username: string, password: string, writeFails: bool)
    returns (id: string, outcome: PostOutcome)
    requires FormValue(form, RmKey) == "" && PartCount(form) >= 1
    modifies store, rc
    ensures outcome.Updated? || outcome.Created?
    ensures id == outcome.id
    ensures id in store.index && store.index[id] == store.hash(Assembled(form, PartCount(form)))
    ensures outcome.Updated? <==>
      UpdateSucceeds(old(store.index), old(store.owners), old(store.passwords), store.hash, form, username, password, writeFails)
    ensures outcome.Updated? ==> id == FormValue(form, IdKey(1))
    ensures store.AgreesOff(old(store.index), old(store.owners), old(store.passwords), old(store.files), Touched(form, username, id))
    ensures !writeFails ==> store.AgreesOff(old(store.index), old(store.owners), old(store.passwords), old(store.files), {id})
    ensures FormEffect(old(store.index), old(store.owners), old(store.passwords), old(store.files),
                       store.index, store.owners, store.passwords, store.files, store.hash, form, username, password, id, outcome.Updated?)
    ensures rc.counts == old(rc.counts)
    ensures rc.maxReads == if id != "" && RegisteredLimits(Some(form)) != [] then old(rc.maxReads)[id := RegisteredLimits(Some(form))[0]] else old(rc.maxReads)
  {
    var content, processed, limits := AssembleParts(form);
    assert limits == RegisteredLimits(Some(form));
    var updated;
    id, updated := UpdateOrCreate(store, form, content, username, password, writeFails);
    ApplyLimits(rc, id, limits);
    outcome := if updated then Updated(id) else Created(id);
  }

  /**
   * The fallback of handlePostRequest (handlers.go:159-171): the raw body
   * becomes a new snippet, or the request fails when the body cannot be read.
   * Limits registered before (from a form with no parts) apply to the id in
   * force when the handler returns, the path's own id on failure.
   */
  method SubmitBody(store: Store.Store, rc: Counter.ReadCounter, pathId: string, username: string, password: string,
                    body: Option<string>, limits: seq<int>)
    returns (id: string, outcome: PostOutcome)
    modifies store, rc
    ensures body.None? ==> outcome == BadRequest && id == pathId && unchanged(store)
    ensures body.Some? ==> outcome == Created(id) && id in store.index && store.index[id] == store.hash(body.value)
    ensures body.Some? ==> store.AgreesOff(old(store.index), old(store.owners), old(store.passwords), old(store.files), {id})
    ensures body.Some? ==>
      Store.CreateEffect(old(store.index), old(store.owners), old(store.passwords), old(store.files),
                         store.index, store.owners, store.passwords, store.files,
                         store.hash(body.value), body.value, username, password, id)
    ensures rc.counts == old(rc.counts)
    ensures rc.maxReads == if id != "" && limits != [] then old(rc.maxReads)[id := limits[0]] else old(rc.maxReads)
  {
    id := pathId;
    if body.None? {
      ApplyLimits(rc, id, limits);
      return id, BadRequest;
    }
    id := store.CreateSnippet(body.value, username, password);
    ApplyLimits(rc, id, limits);
    return id, Created(id);
  }

  /** handlePostRequest after the `rm` check (handlers.go:137-172): the parts of the form, or else the raw body. */
  method PostContent(store: Store.Store, rc: Counter.ReadCounter, pathId: string, username: string, password: string,
                     multipart: Option<Form>, body: Option<string>, writeFails: bool)
    returns (id: string, outcome: PostOutcome)
    requires multipart.Some? ==> FormValue(multipart.value, RmKey) == ""
    modifies store, rc
    ensures outcome.Updated? || outcome.Created? || outcome.BadRequest?
    ensures outcome.BadRequest? ==> unchanged(store)
    ensures outcome.Updated? ==> Submits(multipart) && id == outcome.id == FormValue(multipart.value, IdKey(1))
    ensures Submits(multipart) ==>
      && (outcome.Updated? || outcome.Created?)
      && (outcome.Updated? <==>
            UpdateSucceeds(old(store.index), old(store.owners), old(store.passwords), store.hash, multipart.value, username, password, writeFails))
      && id in store.index && store.index[id] == store.hash(Assembled(multipart.value, PartCount(multipart.value)))
      && store.AgreesOff(old(store.index), old(store.owners), old(store.passwords), old(store.files), Touched(multipart.value, username, id))
    ensures Submits(multipart) && !writeFails ==>
      store.AgreesOff(old(store.index), old(store.owners), old(store.passwords), old(store.files), {id})
    ensures Submits(multipart) ==>
      FormEffect(old(store.index), old(store.owners), old(store.passwords), old(store.files),
                 store.index, store.owners, store.passwords, store.files, store.hash,
                 multipart.value, username, password, id, outcome.Updated?)
    ensures outcome.Created? && !Submits(multipart) ==>
      && body.Some? && id in store.index && store.index[id] == store.hash(body.value)
      && store.AgreesOff(old(store.index), old(store.owners), old(store.passwords), old(store.files), {id})
      && Store.CreateEffect(old(store.index), old(store.owners), old(store.passwords), old(store.files),
                            store.index, store.owners, store.passwords, store.files,
                            store.hash(body.value), body.value, username, password, id)
    ensures outcome.BadRequest? <==> !Submits(multipart) && body.None?
    ensures rc.counts == old(rc.counts)
    ensures rc.maxReads == if id != "" && RegisteredLimits(multipart) != [] then old(rc.maxReads)[id := RegisteredLimits(multipart)[0]] else old(rc.maxReads)
  {
    id := pathId;
    var limits: seq<int> := [];
    if multipart.Some? {
      var form := multipart.value;
      if PartCount(form) >= 1 {
        id, outcome := SubmitForm(store, rc, form, username, password, writeFails);
        return;
      }
      // No part was processed: the limits are still registered, and the body is read.
      var content, processed;
      content, processed, limits := AssembleParts(form);
    }
    assert limits == RegisteredLimits(multipart);
    id, outcome := SubmitBody(store, rc, id, username, password, body, limits);
  }

  /**
   * handlePostRequest (handlers.go:91-172). `multipart` is the parsed form
   * (`None` when parsing fails), `body` the raw body (`None` when it cannot be
   * read), `writeFails` the outcome of writing the content file on update.
   */
  method HandlePost(store: Store.Store, rc: Counter.ReadCounter, pathId: string, username: string, password: string,
                    multipart: Option<Form>, body: Option<string>, writeFails: bool)
    returns (id: string, outcome: PostOutcome)
    modifies store, rc
    ensures multipart.Some? && FormValue(multipart.value, RmKey) != "" ==>
      var rm := FormValue(multipart.value, RmKey);
      && (outcome == Deleted(rm) || outcome == Forbidden)
      && (outcome.Deleted? <==> rm in old(store.index) && Store.MayDelete(old(store.owners), old(store.passwords), rm, username, password))
    ensures outcome.Deleted? ==>
      && store.index == old(store.index) - {outcome.id} && store.owners == old(store.owners) - {outcome.id}
      && store.passwords == old(store.passwords) - {outcome.id} && store.files == old(store.files) - {outcome.id}
    ensures outcome.Forbidden? || outcome.BadRequest? ==> unchanged(store)
    ensures outcome.Updated? ==> Submits(multipart) && id == outcome.id == FormValue(multipart.value, IdKey(1))
    ensures Submits(multipart) ==>
      && (outcome.Updated? || outcome.Created?)
      && (outcome.Updated? <==>
            UpdateSucceeds(old(store.index), old(store.owners), old(store.passwords), store.hash, multipart.value, username, password, writeFails))
      && id in store.index && store.index[id] == store.hash(Assembled(multipart.value, PartCount(multipart.value)))
      && store.AgreesOff(old(store.index), old(store.owners), old(store.passwords), old(store.files), Touched(multipart.value, username, id))
    ensures Submits(multipart) && !writeFails ==>
      store.AgreesOff(old(store.index), old(store.owners), old(store.passwords), old(store.files), {id})
    ensures Submits(multipart) ==>
      FormEffect(old(store.index), old(store.owners), old(store.passwords), old(store.files),
                 store.index, store.owners, store.passwords, store.files, store.hash,
                 multipart.value, username, password, id, outcome.Updated?)
    ensures outcome.Created? && !Submits(multipart) ==>
      && body.Some? && id in store.index && store.index[id] == store.hash(body.value)
      && store.AgreesOff(old(store.index), old(store.owners), old(store.passwords), old(store.files), {id})
      && Store.CreateEffect(old(store.index), old(store.owners), old(store.passwords), old(store.files),
                            store.index, store.owners, store.passwords, store.files,
                            store.hash(body.value), body.value, username, password, id)
    ensures outcome.BadRequest? <==> !(multipart.Some? && FormValue(multipart.value, RmKey) != "") && !Submits(multipart) && body.None?
    ensures rc.counts == old(rc.counts)
    ensures rc.maxReads == if id != "" && RegisteredLimits(multipart) != [] then old(rc.maxReads)[id := RegisteredLimits(multipart)[0]] else old(rc.maxReads)
  {
    id := pathId;
    if multipart.Some? {
      var form := multipart.value;
      var rmId := FormValue(form, RmKey);
      if rmId != "" {
        var ok := store.DeleteSnippet(rmId, username, password);
        return id, if ok then Deleted(rmId) else Forbidden;
      }
    }
    id, outcome := PostContent(store, rc, pathId, username, password, multipart, body, writeFails);
  }

  // ----- Reading a snippet, and expiring it on its last read -----

  /**
   * The read path of handleGetRequest, handleSyntaxHighlighting and the
   * highlighted route (handlers.go:42-49, 74-85, 273-282): a snippet that is
   * found is counted, and when its read limit is reached it is deleted as an
   * anonymous caller would, which removes only unowned snippets.
   */
  method FetchAndExpire(store: Store.Store, rc: Counter.ReadCounter, id: string) returns (content: string, found: bool)
    modifies store, rc
    ensures found <==> id in old(store.index) && id in old(store.files)
    ensures found ==> content == old(store.files)[id]
    ensures !found ==> content == "" && unchanged(store) && unchanged(rc)
    ensures found && !Counter.Expires(old(rc.counts), old(rc.maxReads), id) ==>
      && rc.counts == old(rc.counts)[id := Counter.Count(old(rc.counts), id) + 1] && rc.maxReads == old(rc.maxReads)
      && unchanged(store)
    ensures found && Counter.Expires(old(rc.counts), old(rc.maxReads), id) ==>
      && rc.counts == old(rc.counts) - {id} && rc.maxReads == old(rc.maxReads) - {id}
      && if id in old(store.owners) then unchanged(store)
         else
           && store.index == old(store.index) - {id} && store.owners == old(store.owners) - {id}
           && store.passwords == old(store.passwords) - {id} && store.files == old(store.files) - {id}
  {
    content, found := store.GetSnippet(id);
    if found {
      var expired := rc.IncrementAndCheck(id);
      if expired {
        var deleted := store.DeleteSnippet(id, "", "");
      }
    }
  }

  // ----- Routing -----

  /** The first "/" of a path that starts with "user/" is the one after "user". */
  lemma UserPrefixSplit(path: string)
    requires HasPrefix(path, "user/")
    ensures SplitN2(path, '/') == ["user", path[5..]]
  {
    assert path[..5] == "user/";
    assert path[0] == 'u' && path[1] == 's' && path[2] == 'e' && path[3] == 'r' && path[4] == '/';
    assert Find(path[4..], '/') == 0;
    assert path[4..] == path[3..][1..];
    assert Find(path[3..], '/') == 1;
    assert path[3..] == path[2..][1..];
    assert Find(path[2..], '/') == 2;
    assert path[2..] == path[1..][1..];
    assert Find(path[1..], '/') == 3;
    assert Find(path, '/') == 4;
    assert path[..4] == "user";
  }

  /** The user a "user/" path names: the second of the parts SplitN(path, "/", 3) gives. */
  lemma UserOfPath(path: string)
    requires HasPrefix(path, "user/")
    ensures var user := SplitN2(path[5..], '/')[0];
      '/' !in user && (path == "user/" + user || HasPrefix(path, "user/" + user + "/"))
  {
    var rest := path[5..];
    assert path == "user/" + rest;
    var parts := SplitN2(rest, '/');
    if |parts| == 2 {
      assert path == "user/" + parts[0] + "/" + parts[1];
      assert ("user/" + parts[0] + "/" + parts[1])[..|"user/" + parts[0] + "/"|] == "user/" + parts[0] + "/";
    }
  }

  /** What handleSyntaxHighlighting reads from a path with a "+": the id before it and the language after it. */
  lemma ConsoleOfPath(path: string)
    requires '+' in path
    ensures var parts := SplitN2(path, '+');
      var lang := if |parts| > 1 && parts[1] != "" then parts[1] else "console";
      '+' !in parts[0] && (path == parts[0] + "+" + lang || (path == parts[0] + "+" && lang == "console"))
  {
  }

  datatype Method = Get | Post | Put | Delete | OtherMethod

  datatype Route =
    | UserListing(user: string)                 // user/<name>[/...]
    | Console(id: string, lang: string)         // <id>+[<lang>]
    | Highlighted(id: string, lang: string)     // <id>/<lang>
    | PostTo(id: string)
    | PutTo(id: string)
    | GetById(id: string)
    | DeleteById(id: string)
    | NotAllowed

  /**
   * createMainHandler's dispatch (handlers.go:22-69) and the language default
   * of handleSyntaxHighlighting (handlers.go:73-78), on the path without its
   * leading "/": a "user/" prefix first, then a "+", then a "/", then the
   * method.
   */
  function Classify(path: string, m: Method): (r: Route)
    ensures r.UserListing? <==> HasPrefix(path, "user/")
    ensures r.UserListing? ==> '/' !in r.user && (path == "user/" + r.user || HasPrefix(path, "user/" + r.user + "/"))
    ensures r.Console? <==> !HasPrefix(path, "user/") && '+' in path
    ensures r.Console? ==> '+' !in r.id
    ensures r.Console? ==> path == r.id + "+" + r.lang || (path == r.id + "+" && r.lang == "console")
    ensures r.Highlighted? <==> !HasPrefix(path, "user/") && '+' !in path && '/' in path
    ensures r.Highlighted? ==> '/' !in r.id && path == r.id + "/" + r.lang
    ensures r.PostTo? || r.PutTo? || r.GetById? || r.DeleteById? || r.NotAllowed? ==> '+' !in path && '/' !in path
    ensures r.PostTo? || r.PutTo? || r.GetById? || r.DeleteById? ==> r.id == path
    ensures r.NotAllowed? <==> '+' !in path && '/' !in path && m.OtherMethod?
  {
    if HasPrefix(path, "user/") then
      // SplitN(path, "/", 3) of a path that starts with "user/" always has a second part.
      UserPrefixSplit(path);
      UserOfPath(path);
      var userParts := SplitN2(path, '/');
      UserListing(SplitN2(userParts[1], '/')[0])
    else if '+' in path then
      ConsoleOfPath(path);
      var parts := SplitN2(path, '+');
      Console(parts[0], if |parts| > 1 && parts[1] != "" then parts[1] else "console")
    else if '/' in path then
      var parts := SplitN2(path, '/');
      Highlighted(parts[0], parts[1])
    else
      match m
      case Post => PostTo(path)
      case Put => PutTo(path)
      case Get => GetById(path)
      case Delete => DeleteById(path)
      case OtherMethod => NotAllowed
  }
}
