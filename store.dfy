/**
 * The snippet store of store.go: three relations keyed by snippet id (content
 * hash, owner, password), each persisted as a relation file, plus the content
 * files, one per id.
 */
module Store {
  import opened Wrappers
  import IdEncoding
  import LineFormat

  /** Go's `m[k]` on a map of strings: the zero value "" for a missing key. */
  function Get(m: map<string, string>, k: string): (v: string)
    ensures k in m ==> v == m[k]
    ensures k !in m ==> v == ""
  {
    if k in m then m[k] else ""
  }

  /** `a` and `b` hold the same entries for every id outside `t`. */
  ghost predicate AgreeOff(a: map<string, string>, b: map<string, string>, t: set<string>)
  {
    forall k :: k !in t ==> (k in a <==> k in b) && (k in a ==> a[k] == b[k])
  }

  /** Agreement outside `s` and then outside `t` is agreement outside both. */
  lemma AgreeOffTrans(a: map<string, string>, b: map<string, string>, c: map<string, string>, s: set<string>, t: set<string>)
    requires AgreeOff(a, b, s) && AgreeOff(b, c, t)
    ensures AgreeOff(a, c, s + t)
  {
  }

  /**
   * What createSnippet (store.go:114-155) leaves in the maps, from `*0`
   * before to the maps after, for content `content` of hash `h` returned as
   * `id`. When some id already holds `h`, `id` is one of them, the index and
   * the files stay, and the claim rule of store.go:120 decides its owner and
   * password. Otherwise `id` is fresh and of the shortest free length, and
   * gets the hash, the file and, for a named owner, owner and password.
   */
  ghost predicate CreateEffect(index0: map<string, string>, owners0: map<string, string>, passwords0: map<string, string>,
                               files0: map<string, string>, index: map<string, string>, owners: map<string, string>,
                               passwords: map<string, string>, files: map<string, string>,
                               h: string, content: string, owner: string, password: string, id: string)
  {
    if exists d :: d in index0 && index0[d] == h then
      && id in index0 && index0[id] == h
      && index == index0 && files == files0
      && if MayClaim(owners0, passwords0, id, owner, password) then
           owners == owners0[id := owner] && passwords == passwords0[id := password]
         else
           owners == owners0 && passwords == passwords0
    else
      && id !in index0 && |id| >= 1 && IsId(id, |id|)
      && (forall length :: 1 <= length < |id| ==> Full(index0.Keys, length))
      && index == index0[id := h] && files == files0[id := content]
      && owners == (if owner != "" then owners0[id := owner] else owners0)
      && passwords == (if owner != "" then passwords0[id := password] else passwords0)
  }

  /** The relation file holds a rendering of `m`, written in some iteration order. */
  ghost predicate SavedAs(file: Option<string>, m: map<string, string>)
  {
    file.Some? && LineFormat.Saved(file.value, m)
  }

  ghost predicate Injective(f: string -> string)
  {
    forall a, b :: f(a) == f(b) ==> a == b
  }

  /** The ids of the given length: `length` characters from the id alphabet. */
  ghost predicate IsId(s: string, length: nat)
  {
    |s| == length && IdEncoding.IdString(s)
  }

  /** Every id of this length is taken. */
  ghost predicate Full(taken: set<string>, length: nat)
  {
    forall s :: IsId(s, length) ==> s in taken
  }

  /**
   * Claiming an existing snippet on duplicate upload (store.go:120): a named
   * owner takes it over when it has no owner, or when owner and password
   * both match what is stored.
   */
  predicate MayClaim(owners: map<string, string>, passwords: map<string, string>, id: string, owner: string, password: string)
  {
    owner != "" && (Get(owners, id) == "" || (Get(owners, id) == owner && Get(passwords, id) == password))
  }

  /**
   * The ownership check of deleteSnippet (store.go:182-193): an unowned
   * snippet may be deleted by anyone; an owned one only by its owner, named,
   * with the stored password when there is one.
   */
  predicate MayDelete(owners: map<string, string>, passwords: map<string, string>, id: string, username: string, password: string)
  {
    id in owners ==> username != "" && owners[id] == username && (id in passwords ==> passwords[id] == password)
  }

  /**
   * The ownership check of updateSnippet (store.go:221-228): skipped
   * altogether when no username is given.
   */
  predicate MayUpdate(owners: map<string, string>, passwords: map<string, string>, id: string, username: string, password: string)
  {
    username != "" ==> (id in owners ==> owners[id] == username && (id in passwords ==> passwords[id] == password))
  }

  /** Update is laxer than delete in exactly one case: an owned snippet and no username. */
  lemma UpdateDeleteGap(owners: map<string, string>, passwords: map<string, string>, id: string, username: string, password: string)
    ensures MayDelete(owners, passwords, id, username, password) ==> MayUpdate(owners, passwords, id, username, password)
    ensures MayUpdate(owners, passwords, id, username, password) && !MayDelete(owners, passwords, id, username, password)
            <==> id in owners && username == ""
  {
  }

  /** Whatever the password, no anonymous request removes an owned snippet. */
  lemma AnonymousCannotDeleteOwned(owners: map<string, string>, passwords: map<string, string>, id: string, password: string)
    requires id in owners
    ensures !MayDelete(owners, passwords, id, "", password)
  {
  }

  /** The numbers 0 .. n-1, the indices rand.Perm(n) permutes. */
  function Below(n: int): (r: set<nat>)
    ensures forall k: nat :: k in r <==> k < n
    decreases n
  {
    if n <= 0 then {} else Below(n - 1) + {n - 1}
  }

  /** The encodings of 0 .. n-1 over any alphabet. */
  ghost function EncodingsOver(chars: string, n: nat, length: nat): (s: set<string>)
    requires |chars| > 0
  {
    set k: nat | k < n :: IdEncoding.Encode(k, chars, length)
  }

  lemma EncodingsStep(chars: string, n: nat, length: nat)
    requires |chars| > 0 && n > 0
    ensures EncodingsOver(chars, n, length) == EncodingsOver(chars, n - 1, length) + {IdEncoding.Encode(n - 1, chars, length)}
  {
    var a, b := EncodingsOver(chars, n, length), EncodingsOver(chars, n - 1, length) + {IdEncoding.Encode(n - 1, chars, length)};
    forall s | s in a ensures s in b {
      var k: nat :| k < n && s == IdEncoding.Encode(k, chars, length);
      if k < n - 1 { assert s in EncodingsOver(chars, n - 1, length); }
    }
  }

  /** Distinct numbers below |chars|^length have distinct encodings, so there are exactly n of them. */
  lemma {:induction false} EncodingsOverCount(chars: string, n: nat, length: nat)
    requires |chars| > 0 && IdEncoding.Distinct(chars) && n <= IdEncoding.Pow(|chars|, length)
    ensures |EncodingsOver(chars, n, length)| == n
  {
    if n > 0 {
      EncodingsOverCount(chars, n - 1, length);
      var last := IdEncoding.Encode(n - 1, chars, length);
      assert last !in EncodingsOver(chars, n - 1, length) by {
        if last in EncodingsOver(chars, n - 1, length) {
          var k: nat :| k < n - 1 && last == IdEncoding.Encode(k, chars, length);
          IdEncoding.EncodeInjective(k, n - 1, chars, length);
        }
      }
      EncodingsStep(chars, n, length);
    }
  }

  lemma {:induction false} SubsetCard(a: set<string>, b: set<string>)
    requires a <= b
    ensures |a| <= |b|
  {
    if a != {} {
      var x :| x in a;
      SubsetCard(a - {x}, b - {x});
    }
  }

  /** A length at which every id is taken holds no more ids than the index: 62^length <= |taken|. */
  lemma FullBound(taken: set<string>, length: nat)
    requires Full(taken, length)
    ensures IdEncoding.Pow(62, length) <= |taken|
  {
    IdEncoding.PowPositive(62, length);
    var p: nat := IdEncoding.Pow(62, length);
    IdEncoding.IdCharsDistinct();
    var ids := EncodingsOver(IdEncoding.IdChars, p, length);
    forall s | s in ids ensures s in taken {
      var k: nat :| k < p && s == IdEncoding.Encode(k, IdEncoding.IdChars, length);
      IdEncoding.IdStringOver(s);
    }
    EncodingsOverCount(IdEncoding.IdChars, p, length);
    SubsetCard(ids, taken);
  }

  /**
   * The relations agree with each other and with the content files: owners
   * and passwords are set together, only for indexed ids; each indexed id has
   * a content file whose hash the index records.
   */
  ghost predicate Consistent(index: map<string, string>, owners: map<string, string>, passwords: map<string, string>,
                             files: map<string, string>, hash: string -> string)
  {
    && owners.Keys == passwords.Keys
    && owners.Keys <= index.Keys
    && index.Keys == files.Keys
    && (forall id :: id in index ==> index[id] == hash(files[id]))
  }

  /** A claim (store.go:123-124) touches only the owner and password of an indexed id. */
  lemma ConsistentClaim(index: map<string, string>, owners: map<string, string>, passwords: map<string, string>,
                        files: map<string, string>, hash: string -> string, id: string, owner: string, password: string)
    requires Consistent(index, owners, passwords, files, hash) && id in index
    ensures Consistent(index, owners[id := owner], passwords[id := password], files, hash)
  {
  }

  /** Storing content under an id, with or without a new owner, as creation and update do. */
  lemma ConsistentStore(index: map<string, string>, owners: map<string, string>, passwords: map<string, string>,
                        files: map<string, string>, hash: string -> string, id: string, content: string,
                        owned: bool, owner: string, password: string)
    requires Consistent(index, owners, passwords, files, hash)
    ensures Consistent(index[id := hash(content)],
                       if owned then owners[id := owner] else owners,
                       if owned then passwords[id := password] else passwords,
                       files[id := content], hash)
  {
  }

  /** Removing an id from everything, as deletion does. */
  lemma ConsistentRemove(index: map<string, string>, owners: map<string, string>, passwords: map<string, string>,
                         files: map<string, string>, hash: string -> string, id: string)
    requires Consistent(index, owners, passwords, files, hash)
    ensures Consistent(index - {id}, owners - {id}, passwords - {id}, files - {id}, hash)
  {
  }

  /** With an injective hash, an id whose recorded hash is that of `content` holds exactly `content`. */
  lemma ConsistentDedup(index: map<string, string>, owners: map<string, string>, passwords: map<string, string>,
                        files: map<string, string>, hash: string -> string, id: string, content: string)
    requires Consistent(index, owners, passwords, files, hash) && Injective(hash)
    requires id in index && index[id] == hash(content)
    ensures id in files && files[id] == content
  {
  }

  class Store {
    /** id -> content hash (index.txt). */
    var index: map<string, string>
    /** id -> owner name (owners.txt). */
    var owners: map<string, string>
    /** id -> owner password (passwords.txt). */
    var passwords: map<string, string>
    /** The content files under the data directory, by id. */
    var files: map<string, string>
    /** The text of the three relation files on disk (`None` while a file does not exist). */
    var indexFile: Option<string>
    var ownersFile: Option<string>
    var passwordsFile: Option<string>
    /** contentHash (store.go:254-258): SHA-256 in hex, taken as given. */
    const hash: string -> string

    /** What every operation keeps (see Consistent). */
    ghost predicate Valid()
      reads this
    {
      Consistent(index, owners, passwords, files, hash)
    }

    /**
     * newStore (store.go:35-45): the three relations are loaded from their
     * files, a missing file giving an empty relation.
     */
    constructor (hash: string -> string, indexFile: Option<string>, ownersFile: Option<string>,
                 passwordsFile: Option<string>, files: map<string, string>)
      ensures this.hash == hash && this.files == files
      ensures this.indexFile == indexFile && this.ownersFile == ownersFile && this.passwordsFile == passwordsFile
      ensures index == (if indexFile.None? then map[] else LineFormat.Parse(indexFile.value))
      ensures owners == (if ownersFile.None? then map[] else LineFormat.Parse(ownersFile.value))
      ensures passwords == (if passwordsFile.None? then map[] else LineFormat.Parse(passwordsFile.value))
      ensures indexFile.None? && ownersFile.None? && passwordsFile.None? && files == map[] ==> Valid()
    {
      this.hash := hash;
      this.files := files;
      this.indexFile, this.ownersFile, this.passwordsFile := indexFile, ownersFile, passwordsFile;
      var i := LineFormat.LoadMapFromFile(indexFile);
      var o := LineFormat.LoadMapFromFile(ownersFile);
      var p := LineFormat.LoadMapFromFile(passwordsFile);
      index, owners, passwords := i, o, p;
    }

    method SaveIndex()
      modifies this`indexFile
      ensures SavedAs(indexFile, index)
    {
      var text, order := LineFormat.SaveToText(index);
      indexFile := Some(text);
    }

    method SaveOwners()
      modifies this`ownersFile, this`passwordsFile
      ensures SavedAs(ownersFile, owners) && SavedAs(passwordsFile, passwords)
    {
      var text, order := LineFormat.SaveToText(owners);
      ownersFile := Some(text);
      text, order := LineFormat.SaveToText(passwords);
      passwordsFile := Some(text);
    }

    /**
     * The relation writes shared by createSnippet (store.go:137-147) and
     * updateSnippet (store.go:236-244): the id gets the content's hash and,
     * for a named owner, that owner and password; the relations are saved.
     */
    method Record(id: string, content: string, owner: string, password: string)
      modifies this`index, this`owners, this`passwords, this`indexFile, this`ownersFile, this`passwordsFile
      ensures index == old(index)[id := hash(content)]
      ensures owners == (if owner != "" then old(owners)[id := owner] else old(owners))
      ensures passwords == (if owner != "" then old(passwords)[id := password] else old(passwords))
      ensures SavedAs(indexFile, index) && SavedAs(ownersFile, owners) && SavedAs(passwordsFile, passwords)
    {
      index := index[id := hash(content)];
      if owner != "" {
        owners := owners[id := owner];
        passwords := passwords[id := password];
      }
      SaveIndex();
      SaveOwners();
    }

    /** The relation writes of deleteSnippet (store.go:195-200): the id leaves all three, which are saved. */
    method Forget(id: string)
      modifies this`index, this`owners, this`passwords, this`indexFile, this`ownersFile, this`passwordsFile
      ensures index == old(index) - {id} && owners == old(owners) - {id} && passwords == old(passwords) - {id}
      ensures SavedAs(indexFile, index) && SavedAs(ownersFile, owners) && SavedAs(passwordsFile, passwords)
    {
      index := index - {id};
      owners := owners - {id};
      passwords := passwords - {id};
      SaveIndex();
      SaveOwners();
    }

    /**
     * generateID (store.go:84-112): tries the ids of length 1, 2, ... in turn,
     * each length in a random order, and returns the first one not in the
     * index. So the id is free, and every shorter length is full.
     */
    method GenerateID() returns (id: string)
      ensures id !in index
      ensures |id| >= 1 && IsId(id, |id|)
      ensures forall length :: 1 <= length < |id| ==> Full(index.Keys, length)
    {
      IdEncoding.IdCharsDistinct();
      var length := 1;
      while true
        invariant 1 <= length <= |index.Keys| + 1
        invariant forall l :: 1 <= l < length ==> Full(index.Keys, l)
        decreases |index.Keys| + 1 - length
      {
        var possible := IdEncoding.IntPow(62, length);
        var untried := Below(possible);
        while untried != {}
          invariant forall k :: k in untried ==> 0 <= k < possible
          invariant forall k: nat :: k < possible && k !in untried ==> IdEncoding.Encode(k, IdEncoding.IdChars, length) in index
          decreases |untried|
        {
          var k: nat :| k in untried;
          var r := IdEncoding.BaseN(k, IdEncoding.IdChars, length);
          if r.Success? && r.value !in index {
            IdEncoding.IdStringOver(r.value);
            return r.value;
          }
          untried := untried - {k};
        }
        forall s | IsId(s, length) ensures s in index {
          IdEncoding.IdStringOver(s);
          IdEncoding.EncodeDecode(s, IdEncoding.IdChars);
        }
        FullBound(index.Keys, length);
        IdEncoding.PowExceeds(62, length);
        length := length + 1;
      }
    }

    /** Outside the ids in `t`, the relations and the files are the given ones. */
    ghost predicate AgreesOff(index0: map<string, string>, owners0: map<string, string>, passwords0: map<string, string>,
                              files0: map<string, string>, t: set<string>)
      reads this
    {
      AgreeOff(index, index0, t) && AgreeOff(owners, owners0, t) && AgreeOff(passwords, passwords0, t) && AgreeOff(files, files0, t)
    }

    /** The ids whose content has the given hash. */
    ghost function WithHash(h: string): set<string>
      reads this
    {
      set id | id in index && index[id] == h
    }

    /**
     * createSnippet (store.go:114-155). Content already stored under some id
     * returns that id: the index and the files stay as they are, and a named
     * owner may claim it. New content gets a fresh id, its hash and its file,
     * and an owner and password when an owner is named.
     */
    method CreateSnippet(content: string, owner: string, password: string) returns (id: string)
      modifies this
      ensures id in index && index[id] == hash(content)
      ensures old(WithHash(hash(content))) != {} ==>
        && id in old(WithHash(hash(content)))
        && index == old(index) && files == old(files) && indexFile == old(indexFile)
        && (if MayClaim(old(owners), old(passwords), id, owner, password) then
              && owners == old(owners)[id := owner] && passwords == old(passwords)[id := password]
              && SavedAs(ownersFile, owners) && SavedAs(passwordsFile, passwords)
            else
              owners == old(owners) && passwords == old(passwords)
              && ownersFile == old(ownersFile) && passwordsFile == old(passwordsFile))
      ensures old(WithHash(hash(content))) == {} ==>
        && id !in old(index) && |id| >= 1 && IsId(id, |id|)
        && index == old(index)[id := hash(content)]
        && (forall length :: 1 <= length < |id| ==> Full(old(index).Keys, length))
        && files == old(files)[id := content]
        && owners == (if owner != "" then old(owners)[id := owner] else old(owners))
        && passwords == (if owner != "" then old(passwords)[id := password] else old(passwords))
        && SavedAs(indexFile, index) && SavedAs(ownersFile, owners) && SavedAs(passwordsFile, passwords)
      ensures old(Valid()) ==> Valid()
      ensures old(Valid()) && Injective(hash) ==> id in files && files[id] == content
      ensures AgreesOff(old(index), old(owners), old(passwords), old(files), {id})
      ensures CreateEffect(old(index), old(owners), old(passwords), old(files), index, owners, passwords, files,
                           hash(content), content, owner, password, id)
    {
      var h := hash(content);
      var same := set d | d in index && index[d] == h;
      assert same == WithHash(h);
      if same != {} {
        id := ReuseExisting(content, owner, password);
      } else {
        id := InsertNew(content, owner, password);
      }
    }

    /** The duplicate branch of createSnippet (store.go:118-131): some id already holding the content's hash is returned. */
    method ReuseExisting(content: string, owner: string, password: string) returns (id: string)
      requires exists d :: d in index && index[d] == hash(content)
      modifies this
      ensures id in old(index) && old(index)[id] == hash(content)
      ensures index == old(index) && files == old(files) && indexFile == old(indexFile)
      ensures if MayClaim(old(owners), old(passwords), id, owner, password) then
          && owners == old(owners)[id := owner] && passwords == old(passwords)[id := password]
          && SavedAs(ownersFile, owners) && SavedAs(passwordsFile, passwords)
        else
          owners == old(owners) && passwords == old(passwords)
          && ownersFile == old(ownersFile) && passwordsFile == old(passwordsFile)
      ensures old(Valid()) ==> Valid()
      ensures old(Valid()) && Injective(hash) ==> id in files && files[id] == content
      ensures AgreesOff(old(index), old(owners), old(passwords), old(files), {id})
    {
      var h := hash(content);
      id :| id in index && index[id] == h;
      if Valid() && Injective(hash) {
        ConsistentDedup(index, owners, passwords, files, hash, id, content);
      }
      ClaimExisting(id, owner, password);
    }

    /** The duplicate branch of createSnippet (store.go:119-131): a named owner may claim the id. */
    method ClaimExisting(id: string, owner: string, password: string)
      requires id in index
      modifies this`owners, this`passwords, this`ownersFile, this`passwordsFile
      ensures if MayClaim(old(owners), old(passwords), id, owner, password) then
          && owners == old(owners)[id := owner] && passwords == old(passwords)[id := password]
          && SavedAs(ownersFile, owners) && SavedAs(passwordsFile, passwords)
        else
          unchanged(this)
      ensures old(Valid()) ==> Valid()
      ensures AgreesOff(old(index), old(owners), old(passwords), old(files), {id})
    {
      if owner != "" && (Get(owners, id) == "" || (Get(owners, id) == owner && Get(passwords, id) == password)) {
        if Valid() {
          ConsistentClaim(index, owners, passwords, files, hash, id, owner, password);
        }
        owners := owners[id := owner];
        passwords := passwords[id := password];
        SaveOwners();
      }
    }

    /** The new-content branch of createSnippet (store.go:136-154). */
    method InsertNew(content: string, owner: string, password: string) returns (id: string)
      modifies this
      ensures id !in old(index) && |id| >= 1 && IsId(id, |id|)
      ensures forall length :: 1 <= length < |id| ==> Full(old(index).Keys, length)
      ensures index == old(index)[id := hash(content)]
      ensures files == old(files)[id := content]
      ensures owners == (if owner != "" then old(owners)[id := owner] else old(owners))
      ensures passwords == (if owner != "" then old(passwords)[id := password] else old(passwords))
      ensures SavedAs(indexFile, index) && SavedAs(ownersFile, owners) && SavedAs(passwordsFile, passwords)
      ensures old(Valid()) ==> Valid()
      ensures AgreesOff(old(index), old(owners), old(passwords), old(files), {id})
    {
      id := GenerateID();
      if Valid() {
        ConsistentStore(index, owners, passwords, files, hash, id, content, owner != "", owner, password);
      }
      Record(id, content, owner, password);
      files := files[id := content];
    }

    /**
     * getSnippet (store.go:157-171): the content of an indexed id whose file
     * can be read; otherwise nothing.
     */
    method GetSnippet(id: string) returns (content: string, found: bool)
      ensures found <==> id in index && id in files
      ensures found ==> content == files[id]
      ensures !found ==> content == ""
    {
      if id !in index {
        return "", false;
      }
      if id !in files {
        return "", false;
      }
      return files[id], true;
    }

    /**
     * deleteSnippet (store.go:173-210): an indexed id the caller may delete
     * leaves all three relations and its file goes; otherwise nothing changes.
     */
    method DeleteSnippet(id: string, username: string, password: string) returns (ok: bool)
      modifies this
      ensures ok <==> id in old(index) && MayDelete(old(owners), old(passwords), id, username, password)
      ensures ok ==>
        && index == old(index) - {id} && owners == old(owners) - {id} && passwords == old(passwords) - {id}
        && files == old(files) - {id}
        && SavedAs(indexFile, index) && SavedAs(ownersFile, owners) && SavedAs(passwordsFile, passwords)
      ensures !ok ==> unchanged(this)
      ensures old(Valid()) ==> Valid()
      ensures AgreesOff(old(index), old(owners), old(passwords), old(files), {id})
    {
      if id !in index {
        return false;
      }
      var hasOwner := id in owners;
      var hasPassword := id in passwords;
      if hasOwner {
        if username == "" {
          return false;
        }
        if owners[id] != username || (hasPassword && passwords[id] != password) {
          return false;
        }
      }
      if Valid() {
        ConsistentRemove(index, owners, passwords, files, hash, id);
      }
      Forget(id);
      files := files - {id};
      return true;
    }

    /**
     * updateSnippet (store.go:212-252): an indexed id the caller may update
     * gets the new content's hash and, when a username is given, that user as
     * owner; content with the same hash changes nothing. `writeFails` is the
     * outcome of writing the content file: on failure the relations are
     * already updated and saved, the file keeps its old content, and the
     * result is false.
     */
    method UpdateSnippet(id: string, newContent: string, username: string, password: string, writeFails: bool)
      returns (ok: bool)
      modifies this
      ensures id !in old(index) || !MayUpdate(old(owners), old(passwords), id, username, password)
        ==> !ok && unchanged(this)
      ensures id in old(index) && MayUpdate(old(owners), old(passwords), id, username, password)
              && old(index)[id] == hash(newContent)
        ==> ok && unchanged(this)
      ensures id in old(index) && MayUpdate(old(owners), old(passwords), id, username, password)
              && old(index)[id] != hash(newContent) ==>
        && index == old(index)[id := hash(newContent)]
        && owners == (if username != "" then old(owners)[id := username] else old(owners))
        && passwords == (if username != "" then old(passwords)[id := password] else old(passwords))
        && SavedAs(indexFile, index) && SavedAs(ownersFile, owners) && SavedAs(passwordsFile, passwords)
        && ok == !writeFails
        && files == (if writeFails then old(files) else old(files)[id := newContent])
      ensures old(Valid()) && !writeFails ==> Valid()
      ensures AgreesOff(old(index), old(owners), old(passwords), old(files), {id})
    {
      if id !in index {
        return false;
      }
      if username != "" {
        var hasOwner := id in owners;
        var hasPassword := id in passwords;
        if hasOwner && (owners[id] != username || (hasPassword && passwords[id] != password)) {
          return false;
        }
      }
      var newHash := hash(newContent);
      if index[id] == newHash {
        return true;
      }
      if Valid() && !writeFails {
        ConsistentStore(index, owners, passwords, files, hash, id, newContent, username != "", username, password);
      }
      Record(id, newContent, username, password);
      if writeFails {
        return false;
      }
      files := files[id := newContent];
      return true;
    }
  }
}
