/**
  The image textures of the native presenter (tools/ridux_native_ui.c): a cache scanned with an
  early exit at the first free slot, at most one upload per frame, and a batch of quads waiting
  to be drawn.  Graphics calls are parameters that say whether they succeeded.
 */
module ImageCache {
  import opened Machine
  import opened Products

  const CACHE_MAX := 128
  const NEW_TEXTURES_PER_FRAME := 1
  const BATCH_MAX_QUADS := 256
  const BATCH_MAX_VERTICES := BATCH_MAX_QUADS * 4

  type Texture = nat  // 0 is none

  datatype Key = Key(pixels: nat, width: UInt32, height: UInt32)

  datatype Entry = Entry(used: bool, key: Key, lastUsed: UInt32, texture: Texture)

  const FREE := Entry(false, Key(0, 0, 0), 0, 0)

  /** The sizes the presenter accepts; 4096 by 4096 is exactly 64 MiB. */
  predicate Acceptable(k: Key) {
    k.pixels != 0 && 0 < k.width <= 4096 && 0 < k.height <= 4096 && k.width * k.height * 4 <= 0x400_0000
  }

  /** The limit on bytes never refuses what the limits on the sides accept. */
  lemma AcceptableExactly(k: Key)
    ensures Acceptable(k) <==> k.pixels != 0 && 1 <= k.width <= 4096 && 1 <= k.height <= 4096
  {
    if k.width <= 4096 && k.height <= 4096 { MulLe(k.width, k.height, 4096, 4096); }
  }

  function CountOf(s: seq<nat>, n: nat): nat {
    if s == [] then 0 else CountOf(s[..|s| - 1], n) + if s[|s| - 1] == n then 1 else 0
  }

  lemma {:induction false} CountOfLater(s: seq<nat>, n: nat)
    requires forall i :: 0 <= i < |s| ==> s[i] < n
    ensures CountOf(s, n) == 0
  {
    if s != [] { CountOfLater(s[..|s| - 1], n); }
  }

  lemma CountOfAppend(s: seq<nat>, x: nat, n: nat)
    ensures CountOf(s + [x], n) == CountOf(s, n) + if x == n then 1 else 0
  {
    assert (s + [x])[..|s|] == s;
  }

  /** The used slots form a prefix with distinct keys, and are what `m` says. */
  ghost predicate TableHolds(es: seq<Entry>, n: nat, m: map<Key, Texture>) {
    && |es| == CACHE_MAX && n <= CACHE_MAX
    && (forall i :: 0 <= i < CACHE_MAX ==> (es[i].used <==> i < n))
    && (forall i, j :: 0 <= i < j < n ==> es[i].key != es[j].key)
    && (forall i :: 0 <= i < n ==> es[i].key in m && m[es[i].key] == es[i].texture && es[i].texture != 0)
    && (forall k :: k in m ==> exists i :: 0 <= i < n && es[i].key == k)
  }

  /** What waits to be drawn is in the cache. */
  ghost predicate BatchHolds(batch: seq<Texture>, vertices: nat, m: map<Key, Texture>) {
    && vertices == 4 * |batch| && |batch| <= BATCH_MAX_QUADS
    && forall t :: t in batch ==> t in m.Values
  }

  /** No frame has more uploads than the budget, and the counter knows those of the current frame. */
  ghost predicate BudgetHolds(uploads: seq<nat>, presents: nat, frame: UInt32,
                               budgetFrame: UInt32, budgetUsed: UInt32, since: nat) {
    && frame == presents % TWO_32
    && (forall i :: 0 <= i < |uploads| ==> uploads[i] <= presents)
    && CountOf(uploads, presents) <= (if budgetFrame == frame then budgetUsed else 0)
    && budgetUsed <= NEW_TEXTURES_PER_FRAME
    && since <= presents && budgetFrame == since % TWO_32
    && (forall n :: CountOf(uploads, n) <= NEW_TEXTURES_PER_FRAME)
  }

  lemma TouchHolds(es: seq<Entry>, n: nat, m: map<Key, Texture>, i: nat, stamp: UInt32)
    requires TableHolds(es, n, m) && i < CACHE_MAX
    ensures TableHolds(es[i := es[i].(lastUsed := stamp)], n, m)
  {
    var es' := es[i := es[i].(lastUsed := stamp)];
    SameSlots(es, es', n, m);
  }

  lemma SameSlots(es: seq<Entry>, es': seq<Entry>, n: nat, m: map<Key, Texture>)
    requires TableHolds(es, n, m) && |es'| == |es|
    requires forall j :: 0 <= j < |es| ==>
               es'[j].used == es[j].used && es'[j].key == es[j].key && es'[j].texture == es[j].texture
    ensures TableHolds(es', n, m)
  {
    forall k | k in m ensures exists j :: 0 <= j < n && es'[j].key == k {
      var j :| 0 <= j < n && es[j].key == k;
      assert es'[j].key == k;
    }
  }

  /** A used slot with the key has the key's texture. */
  lemma HitHolds(es: seq<Entry>, n: nat, m: map<Key, Texture>, i: nat)
    requires TableHolds(es, n, m) && i < CACHE_MAX
    ensures es[i].used <==> i < n
    ensures es[i].used ==> es[i].key in m && m[es[i].key] == es[i].texture != 0
  {}

  /** A key that no used slot has is not in the cache. */
  lemma MissHolds(es: seq<Entry>, n: nat, m: map<Key, Texture>, k: Key)
    requires TableHolds(es, n, m) && forall i :: 0 <= i < n ==> es[i].key != k
    ensures k !in m
  {}

  lemma StoreHolds(es: seq<Entry>, n: nat, m: map<Key, Texture>, e: Entry)
    requires TableHolds(es, n, m) && n < CACHE_MAX && e.used && e.key !in m && e.texture != 0
    ensures TableHolds(es[n := e], n + 1, m[e.key := e.texture])
  {
    var es', m' := es[n := e], m[e.key := e.texture];
    forall k | k in m' ensures exists j :: 0 <= j < n + 1 && es'[j].key == k {
      if k == e.key {
        assert es'[n].key == k;
      } else {
        var j :| 0 <= j < n && es[j].key == k;
        assert es'[j].key == k;
      }
    }
  }

  lemma BatchGrows(batch: seq<Texture>, vertices: nat, m: map<Key, Texture>, k: Key, t: Texture)
    requires BatchHolds(batch, vertices, m) && k !in m
    ensures BatchHolds(batch, vertices, m[k := t])
  {
    forall u | u in batch ensures u in m[k := t].Values {
      var q :| q in m && m[q] == u;
      assert m[k := t][q] == u;
    }
  }

  lemma TexturesReal(es: seq<Entry>, n: nat, m: map<Key, Texture>)
    requires TableHolds(es, n, m)
    ensures forall t :: t in m.Values ==> t != 0
  {
    forall t | t in m.Values ensures t != 0 {
      var k :| k in m && m[k] == t;
      var i :| 0 <= i < n && es[i].key == k;
      assert es[i].texture == t;
    }
  }

  /** One upload in a frame that has had none. */
  lemma UploadHolds(uploads: seq<nat>, presents: nat, frame: UInt32, since: nat)
    requires BudgetHolds(uploads, presents, frame, frame, 0, since)
    ensures BudgetHolds(uploads + [presents], presents, frame, frame, 1, since)
  {
    var after := uploads + [presents];
    forall n ensures CountOf(after, n) == CountOf(uploads, n) + if n == presents then 1 else 0 {
      CountOfAppend(uploads, presents, n);
    }
  }

  lemma FrameHolds(uploads: seq<nat>, presents: nat, frame: UInt32, budgetFrame: UInt32, budgetUsed: UInt32,
                   since: nat)
    requires BudgetHolds(uploads, presents, frame, budgetFrame, budgetUsed, since)
    ensures BudgetHolds(uploads, presents + 1, (frame + 1) % TWO_32, budgetFrame, budgetUsed, since)
    ensures budgetFrame == (frame + 1) % TWO_32 <==> (presents + 1 - since) % TWO_32 == 0
  {
    hide CountOf;
    CountOfLater(uploads, presents + 1);
    FrameNumbers(presents, since);
  }

  lemma FrameNumbers(presents: nat, since: nat)
    requires since <= presents
    ensures (presents % TWO_32 + 1) % TWO_32 == (presents + 1) % TWO_32
    ensures since % TWO_32 == (presents + 1) % TWO_32 <==> (presents + 1 - since) % TWO_32 == 0
  {
    NextNumber(presents);
    SameNumber(presents + 1, since);
  }

  lemma NextNumber(n: nat)
    ensures (n % TWO_32 + 1) % TWO_32 == (n + 1) % TWO_32
  {}

  lemma SameNumber(m: nat, n: nat)
    requires n <= m
    ensures n % TWO_32 == m % TWO_32 <==> (m - n) % TWO_32 == 0
  {
    var p, q := m / TWO_32, n / TWO_32;
    assert m - n == (p - q) * TWO_32 + (m % TWO_32 - n % TWO_32);
  }

  /** The counter is reset on the first upload attempt of a frame. */
  lemma ResetHolds(uploads: seq<nat>, presents: nat, frame: UInt32, budgetFrame: UInt32, budgetUsed: UInt32,
                   since: nat)
    requires BudgetHolds(uploads, presents, frame, budgetFrame, budgetUsed, since)
    ensures budgetFrame != frame ==> BudgetHolds(uploads, presents, frame, frame, 0, presents)
    ensures budgetFrame == frame && budgetUsed == 0 ==> BudgetHolds(uploads, presents, frame, frame, 1, since)
    ensures budgetUsed <= 1
  {}

  /** One call for a texture: the image, and what the upload would meet. */
  datatype Request = Request(key: Key, mallocOk: bool, newTexture: Texture)

  predicate IsNew(k: Key, m: map<Key, Texture>) {
    Acceptable(k) && k !in m
  }

  /** The position of the first request for an image that is not in the cache. */
  function FirstNew(rs: seq<Request>, m: map<Key, Texture>): (i: nat)
    ensures i <= |rs| && forall j :: 0 <= j < i ==> !IsNew(rs[j].key, m)
    ensures i < |rs| ==> IsNew(rs[i].key, m)
  {
    if rs == [] || IsNew(rs[0].key, m) then 0 else 1 + FirstNew(rs[1..], m)
  }

  lemma SinceHolds(uploads: seq<nat>, presents: nat, frame: UInt32, budgetFrame: UInt32, budgetUsed: UInt32,
                   since: nat)
    requires BudgetHolds(uploads, presents, frame, budgetFrame, budgetUsed, since)
    ensures since <= presents
  {}

  class Cache {
    const entries: array<Entry>
    var epoch: UInt32
    var frame: UInt32
    var budgetFrame: UInt32
    var budgetUsed: UInt32
    var deferred: bool
    var batch: seq<Texture>
    var vertexCount: nat
    ghost var count: nat                     // slots in use
    ghost var contents: map<Key, Texture>
    ghost var presents: nat                  // frames presented since the start
    ghost var uploads: seq<nat>              // the frame of every texture upload
    ghost var since: nat                     // the frame in which the budget was last reset

    ghost predicate Valid()
      reads this, entries
    {
      && entries.Length == CACHE_MAX
      && TableHolds(entries[..], count, contents)
      && BatchHolds(batch, vertexCount, contents)
      && BudgetHolds(uploads, presents, frame, budgetFrame, budgetUsed, since)
    }

    /** Uploads already counted against the current frame. */
    function Spent(): UInt32
      reads this
    {
      if budgetFrame == frame then budgetUsed else 0
    }

    constructor ()
      ensures Valid() && fresh(entries) && contents == map[] && batch == [] && uploads == [] && presents == 0
    {
      entries := new Entry[CACHE_MAX](_ => FREE);
      epoch, frame, budgetFrame, budgetUsed, deferred := 0, 0, 0, 0, false;
      batch, vertexCount := [], 0;
      count, contents, presents, uploads, since := 0, map[], 0, [], 0;
    }

    /** Marks a slot as used now. */
    method Touch(i: nat)
      requires Valid() && i < CACHE_MAX
      modifies entries
      ensures Valid() && entries[..] == old(entries[..])[i := old(entries[i]).(lastUsed := epoch)]
    {
      hide TableHolds, BatchHolds, BudgetHolds;
      TouchHolds(entries[..], count, contents, i, epoch);
      ghost var after := entries[..][i := entries[i].(lastUsed := epoch)];
      entries[i] := entries[i].(lastUsed := epoch);
      assert entries[..] == after;
    }

    /** rui_image_texture_find: looks at every slot. */
    method Find(k: Key) returns (tex: Texture)
      requires Valid()
      modifies this`epoch, entries
      ensures Valid()
      ensures tex == if k.pixels != 0 && k.width != 0 && k.height != 0 && k in contents then contents[k] else 0
    {
      hide TableHolds, BatchHolds, BudgetHolds;
      if k.pixels == 0 || k.width == 0 || k.height == 0 { return 0; }
      epoch := (epoch + 1) % TWO_32;
      ghost var es := entries[..];
      for i := 0 to CACHE_MAX
        invariant Valid() && entries[..] == es
        invariant forall j :: 0 <= j < i && j < count ==> es[j].key != k
        modifies entries
      {
        HitHolds(es, count, contents, i);
        if entries[i].used && entries[i].key == k {
          tex := entries[i].texture;
          Touch(i);
          return;
        }
      }
      SlotsInUse(es, count, contents);
      MissHolds(es, count, contents, k);
      return 0;
    }

    /** The scan of rui_image_texture_get, which stops at the first free slot. */
    method Scan(k: Key) returns (hit: Texture, best: int)
      requires Valid()
      modifies entries
      ensures Valid()
      ensures hit == if k in contents then contents[k] else 0
      ensures hit != 0 <==> k in contents
      ensures -1 <= best < CACHE_MAX
      ensures hit == 0 ==>
              if count < CACHE_MAX then best == count && !entries[best].used else best == -1 || entries[best].used
    {
      hide TableHolds, BatchHolds, BudgetHolds;
      best := -1;
      var oldest := 0xFFFF_FFFF;
      hit := 0;
      ghost var es := entries[..];
      SlotsInUse(es, count, contents);
      var i := 0;
      while i < CACHE_MAX
        invariant 0 <= i <= count && Valid() && entries[..] == es
        invariant forall j :: 0 <= j < i ==> es[j].key != k
        invariant -1 <= best < i
        modifies entries
      {
        HitHolds(es, count, contents, i);
        if entries[i].used && entries[i].key == k {
          hit := entries[i].texture;
          Touch(i);
          return;
        }
        if !entries[i].used {
          best := i;
          break;
        }
        if entries[i].lastUsed < oldest {
          oldest := entries[i].lastUsed;
          best := i;
        }
        i := i + 1;
      }
      MissHolds(es, count, contents, k);
      if best >= 0 { HitHolds(es, count, contents, best); }
    }

    /** rui_image_texture_get. */
    method Get(k: Key, mallocOk: bool, newTexture: Texture) returns (tex: Texture)
      requires Valid()
      modifies this`epoch, this`budgetFrame, this`budgetUsed, this`deferred,
               this`count, this`contents, this`uploads, this`since, entries
      ensures Valid()
      ensures Acceptable(k) && k in old(contents) ==> tex == old(contents)[k] != 0
      ensures tex != 0 ==> Acceptable(k) && k in contents && contents[k] == tex
      // the cache only grows, by this image, and only when the budget and a slot were free
      ensures contents == if k in old(contents) || tex == 0 then old(contents) else old(contents)[k := tex]
      ensures uploads == if k in old(contents) || tex == 0 then old(uploads) else old(uploads) + [presents]
      ensures Acceptable(k) && k !in old(contents) ==>
                (tex != 0 <==>
                  old(Spent()) < NEW_TEXTURES_PER_FRAME && old(count) < CACHE_MAX && mallocOk && newTexture != 0)
      ensures k !in old(contents) && tex != 0 ==> tex == newTexture
      ensures count == old(count) + |contents| - old(|contents|)
      // only a new image uses up the budget, whether or not its upload succeeds
      ensures Spent() == if Acceptable(k) && k !in old(contents) then NEW_TEXTURES_PER_FRAME else old(Spent())
    {
      hide TableHolds, BatchHolds, BudgetHolds;
      if !Acceptable(k) { return 0; }
      ResetHolds(uploads, presents, frame, budgetFrame, budgetUsed, since);
      if budgetFrame != frame {
        budgetFrame, budgetUsed, deferred := frame, 0, false;
        since := presents;
      }
      epoch := (epoch + 1) % TWO_32;
      ResetHolds(uploads, presents, frame, budgetFrame, budgetUsed, since);
      var hit, best := Scan(k);
      if hit != 0 { return hit; }
      if budgetUsed >= NEW_TEXTURES_PER_FRAME {
        deferred := true;
        return 0;
      }
      budgetUsed := budgetUsed + 1;
      if best == -1 || entries[best].used {
        deferred := true;
        return 0;
      }
      if !mallocOk || newTexture == 0 { return 0; }
      Store(best, k, newTexture);
      return newTexture;
    }

    /** The first request for a new image is served. */
    ghost predicate Served(rs: seq<Request>)
      reads this
    {
      var f := FirstNew(rs, contents);
      && f < |rs| && Spent() < NEW_TEXTURES_PER_FRAME && count < CACHE_MAX
      && rs[f].mallocOk && rs[f].newTexture != 0
    }

    /**
      All requests of one frame: the first new image is uploaded, if there is room and budget,
      whatever cached ones come before it; cached images always have their texture, further new
      ones have none.
     */
    method GetAll(rs: seq<Request>) returns (texs: seq<Texture>)
      requires Valid()
      modifies this`epoch, this`budgetFrame, this`budgetUsed, this`deferred,
               this`count, this`contents, this`uploads, this`since, entries
      ensures Valid() && |texs| == |rs|
      ensures forall j :: 0 <= j < |rs| ==>
                var k := rs[j].key;
                texs[j] == if !Acceptable(k) then 0
                           else if k in old(contents) then old(contents)[k]
                           else if old(Served(rs)) && k == rs[FirstNew(rs, old(contents))].key
                           then rs[FirstNew(rs, old(contents))].newTexture else 0
    {
      hide TableHolds, BatchHolds, BudgetHolds, Acceptable, FirstNew;
      texs := [];
      ghost var m, f, served := contents, FirstNew(rs, contents), Served(rs);
      for i := 0 to |rs|
        invariant Valid() && |texs| == i
        invariant contents == if served && i > f then m[rs[f].key := rs[f].newTexture] else m
        invariant Spent() == if i > f then NEW_TEXTURES_PER_FRAME else old(Spent())
        invariant i <= f ==> count == old(count)
        invariant forall j :: 0 <= j < i ==>
                    var k := rs[j].key;
                    texs[j] == if !Acceptable(k) then 0 else if k in m then m[k]
                               else if served && k == rs[f].key then rs[f].newTexture else 0
      {
        var tex := Get(rs[i].key, rs[i].mallocOk, rs[i].newTexture);
        texs := texs + [tex];
      }
    }

    /** Enters a new image in the first free slot. */
    method Store(slot: nat, k: Key, texture: Texture)
      requires Valid() && slot == count < CACHE_MAX && k !in contents && texture != 0
      requires budgetFrame == frame && budgetUsed == 1 && BudgetHolds(uploads, presents, frame, frame, 0, since)
      modifies this`count, this`contents, this`uploads, entries
      ensures Valid() && contents == old(contents)[k := texture] && uploads == old(uploads) + [presents]
      ensures count == old(count) + 1
    {
      hide TableHolds, BatchHolds, BudgetHolds;
      var e := Entry(true, k, epoch, texture);
      StoreHolds(entries[..], count, contents, e);
      BatchGrows(batch, vertexCount, contents, k, texture);
      UploadHolds(uploads, presents, frame, since);
      ghost var after := entries[..][slot := e];
      entries[slot] := e;
      assert entries[..] == after;
      count, contents, uploads := count + 1, contents[k := texture], uploads + [presents];
    }

    /** rui_flush_image_batch: what it draws is in the cache. */
    method Flush(pipelineOk: bool) returns (drawn: seq<Texture>)
      requires Valid()
      modifies this`batch, this`vertexCount
      ensures Valid() && batch == [] && vertexCount == 0
      ensures drawn == if pipelineOk then old(batch) else []
      ensures forall t :: t in drawn ==> t != 0 && t in contents.Values
    {
      hide TableHolds, BudgetHolds;
      drawn := [];
      TexturesReal(entries[..], count, contents);
      if |batch| == 0 || vertexCount == 0 { return; }
      if pipelineOk {
        for i := 0 to |batch|
          invariant drawn == batch[..i]
        {
          drawn := drawn + [batch[i]];
        }
        assert drawn == batch;
      }
      batch, vertexCount := [], 0;
    }

    /** Appends a quad, flushing a full batch first. */
    method Append(tex: Texture, pipelineOk: bool) returns (drawn: seq<Texture>)
      requires Valid() && tex in contents.Values && pipelineOk
      modifies this`batch, this`vertexCount
      ensures Valid() && drawn + batch == old(batch) + [tex]
      ensures forall t :: t in drawn ==> t != 0 && t in contents.Values
    {
      hide TableHolds, BudgetHolds;
      drawn := [];
      if |batch| + 1 > BATCH_MAX_QUADS || vertexCount + 4 > BATCH_MAX_VERTICES {
        drawn := Flush(pipelineOk);
      }
      batch, vertexCount := batch + [tex], vertexCount + 4;
    }

    /** rui_image_argb: queues a quad; the check after the flush never fails. */
    method Queue(k: Key, positiveRect: bool, pipelineOk: bool, mallocOk: bool, newTexture: Texture)
      returns (ok: bool, drawn: seq<Texture>)
      requires Valid()
      modifies this, entries
      ensures Valid() && presents == old(presents)
      ensures forall q :: q in old(contents) ==> q in contents && contents[q] == old(contents)[q]
      ensures ok ==> k in contents && drawn + batch == old(batch) + [contents[k]]
      ensures !ok ==> drawn == [] && batch == old(batch)
      ensures ok == (positiveRect && pipelineOk && Acceptable(k) &&
                     (k in old(contents) ||
                      (mallocOk && newTexture != 0 && old(Spent()) < NEW_TEXTURES_PER_FRAME && old(count) < CACHE_MAX)))
      ensures forall t :: t in drawn ==> t != 0 && t in contents.Values
      ensures Spent() == if positiveRect && pipelineOk && Acceptable(k) && k !in old(contents)
                         then NEW_TEXTURES_PER_FRAME else old(Spent())
    {
      hide TableHolds, BatchHolds, BudgetHolds;
      drawn := [];
      if k.pixels == 0 || !positiveRect || !pipelineOk { return false, []; }
      var tex := Get(k, mallocOk, newTexture);
      if tex == 0 { return false, []; }
      assert contents[k] in contents.Values;
      drawn := Append(tex, pipelineOk);
      ok := true;
    }

    /** rui_present, as far as the cache sees it: the batch is flushed and the frame number moves on. */
    method NextFrame(pipelineOk: bool, presented: bool) returns (drawn: seq<Texture>)
      requires Valid()
      modifies this`batch, this`vertexCount, this`frame, this`presents
      ensures Valid() && batch == [] && presents == old(presents) + (if presented then 1 else 0)
      ensures drawn == if pipelineOk then old(batch) else []
      // a new frame has its own budget, unless its number comes round after 2^32 frames without a request
      ensures !presented ==> Spent() == old(Spent())
      ensures presented ==> Spent() == if (presents - since) % TWO_32 == 0 then budgetUsed else 0
      ensures presented && presents < since + TWO_32 ==> Spent() == 0
    {
      hide TableHolds, BatchHolds, BudgetHolds;
      drawn := Flush(pipelineOk);
      SinceHolds(uploads, presents, frame, budgetFrame, budgetUsed, since);
      if presented {
        FrameHolds(uploads, presents, frame, budgetFrame, budgetUsed, since);
        presents := presents + 1;
        frame := (frame + 1) % TWO_32;
      }
    }
  }

  lemma SlotsInUse(es: seq<Entry>, n: nat, m: map<Key, Texture>)
    requires TableHolds(es, n, m)
    ensures |es| == CACHE_MAX && n <= CACHE_MAX
  {}
}
