/** The face records of the OBJ reader: resolving 1-based and negative vertex references,
    fanning a polygon into triangles, and flattening the indexed triangles into a vertex
    buffer without duplicates plus an index buffer. */
module ObjFaces {
  import opened ObjText

  /** The longest face the parser reads; later tokens on the line are ignored. */
  const MAX_FACE_VERTS: nat := 1024

  /** One whitespace-separated `p[/[t][/n]]` reference of a face line, as strtol reads it.
      `pos` is None when no integer could be read; `tex` and `norm` are None when absent
      or unreadable (the parser then keeps -1 for them). */
  datatype FaceToken = FaceToken(pos: Option<int>, tex: Option<int>, norm: Option<int>)

  /** `_indexed_vertex`: 0-based references, -1 for an absent texture or normal. */
  datatype IndexedVertex = IndexedVertex(pos: int, tex: int, norm: int)

  /** An OBJ reference made 0-based: k > 0 counts from the first record (k - 1), k < 0
      from the last one read so far (count + k). */
  function Resolve(val: int, count: int): int {
    if val < 0 then count + val else val - 1
  }

  /** A reference is accepted exactly when it names one of the `count` records so far:
      1..count from the front, -1..-count from the back; 0 never is. */
  lemma ResolveInRange(val: int, count: nat)
    ensures 0 <= Resolve(val, count) < count <==> (1 <= val <= count || -(count as int) <= val <= -1)
    ensures val == -1 && count > 0 ==> Resolve(val, count) == count - 1
    ensures val == 1 && count > 0 ==> Resolve(val, count) == 0
  {
  }

  /** An optional texture or normal reference: absent gives -1, present must be in range. */
  function ResolveOptional(val: Option<int>, count: nat): (r: Option<int>)
    ensures val.None? ==> r == Some(-1)
    ensures val.Some? ==> (r.Some? <==> 0 <= Resolve(val.value, count) < count)
    ensures r.Some? ==> r.value == -1 || 0 <= r.value < count
  {
    if val.None? then Some(-1)
    else if 0 <= Resolve(val.value, count) < count then Some(Resolve(val.value, count))
    else None
  }

  /** The vertex one token yields against the counts read so far, or None when the face
      must be dropped: unreadable position, or any present reference out of range. */
  function ResolveToken(t: FaceToken, c: Counts): (r: Option<IndexedVertex>)
    ensures r.Some? <==>
      t.pos.Some? && 0 <= Resolve(t.pos.value, c.positions) < c.positions &&
      ResolveOptional(t.tex, c.texcoords).Some? && ResolveOptional(t.norm, c.normals).Some?
    ensures r.Some? ==>
      0 <= r.value.pos < c.positions &&
      (r.value.tex == -1 || 0 <= r.value.tex < c.texcoords) &&
      (r.value.norm == -1 || 0 <= r.value.norm < c.normals)
  {
    if t.pos.None? then None
    else
      var p := Resolve(t.pos.value, c.positions);
      var tx := ResolveOptional(t.tex, c.texcoords);
      var nm := ResolveOptional(t.norm, c.normals);
      if !(0 <= p < c.positions) || tx.None? || nm.None? then None
      else Some(IndexedVertex(p, tx.value, nm.value))
  }

  /** How many tokens the token loop reads: it stops at MAX_FACE_VERTS. */
  function Scanned(tokens: seq<FaceToken>): nat {
    if |tokens| < MAX_FACE_VERTS then |tokens| else MAX_FACE_VERTS
  }

  /** The token loop of the face branch, with its buffer sized MAX_FACE_VERTS: a face is
      valid exactly when every read token resolves, and then the buffer holds the resolved
      vertices in order. */
  method ResolveFace(tokens: seq<FaceToken>, c: Counts) returns (valid: bool, verts: seq<IndexedVertex>)
    ensures |verts| <= Scanned(tokens) <= MAX_FACE_VERTS
    ensures valid <==> forall i :: 0 <= i < Scanned(tokens) ==> ResolveToken(tokens[i], c).Some?
    ensures valid ==> |verts| == Scanned(tokens)
    ensures forall i :: 0 <= i < |verts| ==> ResolveToken(tokens[i], c) == Some(verts[i])
  {
    var faceVerts := new IndexedVertex[MAX_FACE_VERTS](_ => IndexedVertex(-1, -1, -1));
    var nverts := 0;
    valid := true;
    while nverts < |tokens| && nverts < MAX_FACE_VERTS
      invariant nverts <= Scanned(tokens)
      invariant forall i :: 0 <= i < nverts ==> ResolveToken(tokens[i], c) == Some(faceVerts[i])
    {
      var t := tokens[nverts];
      if t.pos.None? {
        valid := false;
        break;
      }
      var v := IndexedVertex(Resolve(t.pos.value, c.positions), -1, -1);
      if v.pos < 0 || v.pos >= c.positions {
        valid := false;
        break;
      }
      if t.tex.Some? {
        v := v.(tex := Resolve(t.tex.value, c.texcoords));
        if v.tex < 0 || v.tex >= c.texcoords {
          valid := false;
          break;
        }
      }
      if t.norm.Some? {
        v := v.(norm := Resolve(t.norm.value, c.normals));
        if v.norm < 0 || v.norm >= c.normals {
          valid := false;
          break;
        }
      }
      faceVerts[nverts] := v;
      nverts := nverts + 1;
    }
    verts := faceVerts[..nverts];
  }

  /** The capacity the face buffer is declared with: the preparse maximum, capped. */
  function FaceBufferLength(maxVerts: int): int {
    if maxVerts < MAX_FACE_VERTS then maxVerts else MAX_FACE_VERTS
  }

  /** The declared capacity is too small when every face has fewer than three tokens: the
      preparse maximum then stays 0, yet a face `f 1 1` against one position resolves two
      vertices, which the token loop stores before the face is rejected as too short. */
  lemma FaceBufferOverflow(s: string, sts: seq<nat>)
    requires forall k :: 0 <= k < |sts| && IsFace(s, sts[k]) ==> FaceVerts(s, sts[k]) < 3
    ensures var tokens := [FaceToken(Some(1), None, None), FaceToken(Some(1), None, None)];
      var c := Counts(1, 0, 0, 0, 0);
      FaceBufferLength(MaxFaceVerts(s, sts, 0)) == 0 &&
      Scanned(tokens) == 2 &&
      forall i :: 0 <= i < 2 ==> ResolveToken(tokens[i], c) == Some(IndexedVertex(0, -1, -1))
  {
    MaxFaceVertsOnlyTriangles(s, sts, 0);
  }

  /** The triangle fan of a polygon: (v0, v[j-1], v[j]) for j = 2 .. |v| - 1, flattened. */
  function Fan(v: seq<IndexedVertex>): (r: seq<IndexedVertex>)
    ensures |r| == if |v| < 3 then 0 else 3 * (|v| - 2)
    ensures forall t :: 0 <= t && 3 * t + 2 < |r| ==>
      r[3 * t] == v[0] && r[3 * t + 1] == v[t + 1] && r[3 * t + 2] == v[t + 2]
    decreases |v|
  {
    if |v| < 3 then [] else Fan(v[..|v| - 1]) + [v[0], v[|v| - 2], v[|v| - 1]]
  }

  /** buf is prior with the fan's triangles from base up to (not including) upto written
      in place, the fan's first triangle going to triangle slot base. */
  ghost predicate FanWritten(buf: seq<IndexedVertex>, prior: seq<IndexedVertex>, base: nat, upto: nat,
                             fan: seq<IndexedVertex>) {
    |buf| == |prior| && base <= upto && 3 * (upto - base) <= |fan| &&
    forall k :: 0 <= k < |buf| ==>
      buf[k] == if 3 * base <= k < 3 * upto then fan[k - 3 * base] else prior[k]
  }

  /** Writing the next fan triangle into its three slots extends the written range. */
  lemma FanWrittenStep(buf: seq<IndexedVertex>, prior: seq<IndexedVertex>, base: nat, upto: nat,
                       fan: seq<IndexedVertex>, a: IndexedVertex, b: IndexedVertex, c: IndexedVertex)
    requires FanWritten(buf, prior, base, upto, fan)
    requires 3 * upto + 2 < |buf| && 3 * (upto - base) + 2 < |fan|
    requires a == fan[3 * (upto - base)] && b == fan[3 * (upto - base) + 1] && c == fan[3 * (upto - base) + 2]
    ensures FanWritten(buf[3 * upto := a][3 * upto + 1 := b][3 * upto + 2 := c], prior, base, upto + 1, fan)
  {
  }

  /** The parser's output arrays and running counts. */
  class Mesh {
    /** `indexed_vertices`, allocated for the preparse triangle count. */
    const indexed: array<IndexedVertex>
    var counts: Counts
    /** `parser.max_counts.triangles`. */
    const maxTriangles: nat

    ghost predicate Valid()
      reads this
    {
      indexed.Length == 3 * maxTriangles && counts.triangles <= maxTriangles
    }

    constructor(maxTriangles: nat)
      ensures Valid() && fresh(indexed)
      ensures this.maxTriangles == maxTriangles && counts == Counts(0, 0, 0, 0, 0)
    {
      this.maxTriangles := maxTriangles;
      indexed := new IndexedVertex[3 * maxTriangles](_ => IndexedVertex(-1, -1, -1));
      counts := Counts(0, 0, 0, 0, 0);
    }

    /** The triangles of the face that fit under the preparse maximum. */
    function Emitted(n: nat): nat
      reads this
    {
      var room := if counts.triangles <= maxTriangles then maxTriangles - counts.triangles else 0;
      var want := if n < 3 then 0 else n - 2;
      if want < room then want else room
    }

    /** Writes one triangle into slots idx, idx + 1 and idx + 2 of the buffer. */
    method PutTriangle(idx: nat, a: IndexedVertex, b: IndexedVertex, c: IndexedVertex)
      requires idx + 2 < indexed.Length
      modifies indexed
      ensures indexed[..] == old(indexed[..])[idx := a][idx + 1 := b][idx + 2 := c]
    {
      indexed[idx] := a;
      indexed[idx + 1] := b;
      indexed[idx + 2] := c;
    }

    /** One pass of the fan loop: triangle j - 2 of the fan, (v0, v[j-1], v[j]), goes to
        triangle slot `triangles`, right after those already written for this face. */
    method FanTriangle(verts: seq<IndexedVertex>, j: nat, triangles: nat, ghost base: nat,
                       ghost prior: seq<IndexedVertex>)
      requires 2 <= j < |verts| && triangles - base == j - 2 && triangles < maxTriangles
      requires indexed.Length == 3 * maxTriangles
      requires FanWritten(indexed[..], prior, base, triangles, Fan(verts))
      modifies indexed
      ensures FanWritten(indexed[..], prior, base, triangles + 1, Fan(verts))
    {
      ghost var fan := Fan(verts);
      assert fan[3 * (j - 2)] == verts[0] && fan[3 * (j - 2) + 1] == verts[j - 1] &&
             fan[3 * (j - 2) + 2] == verts[j];
      FanWrittenStep(indexed[..], prior, base, triangles, fan, verts[0], verts[j - 1], verts[j]);
      PutTriangle(3 * triangles, verts[0], verts[j - 1], verts[j]);
    }

    /** The fan loop and the face count: triangles are appended after the existing ones
        until the preparse maximum is reached; the face is counted either way. */
    method EmitFan(verts: seq<IndexedVertex>)
      requires Valid() && |verts| >= 3
      modifies this, indexed
      ensures Valid()
      ensures counts == old(counts).(triangles := old(counts.triangles) + old(Emitted(|verts|)),
                                     faces := old(counts.faces) + 1)
      ensures FanWritten(indexed[..], old(indexed[..]), old(counts.triangles), counts.triangles, Fan(verts))
    {
      var triangles := counts.triangles;
      ghost var base := triangles;
      ghost var prior := indexed[..];
      var j := 2;
      while j < |verts|
        invariant 2 <= j <= |verts|
        invariant triangles - base == j - 2 && triangles <= maxTriangles
        invariant FanWritten(indexed[..], prior, base, triangles, Fan(verts))
        modifies indexed
      {
        if triangles >= maxTriangles {
          break;
        }
        FanTriangle(verts, j, triangles, base, prior);
        triangles := triangles + 1;
        j := j + 1;
      }
      counts := counts.(triangles := triangles, faces := counts.faces + 1);
    }

    /** The face branch of the parser: resolve, drop an invalid face or one with fewer
        than three vertices, otherwise emit its fan. */
    method ParseFace(tokens: seq<FaceToken>) returns (emitted: bool, ghost verts: seq<IndexedVertex>)
      requires Valid()
      modifies this, indexed
      ensures Valid()
      ensures emitted <==>
        (forall i :: 0 <= i < Scanned(tokens) ==> ResolveToken(tokens[i], old(counts)).Some?) &&
        Scanned(tokens) >= 3
      ensures !emitted ==> counts == old(counts) && indexed[..] == old(indexed[..])
      ensures emitted ==>
        |verts| == Scanned(tokens) &&
        (forall i :: 0 <= i < |verts| ==> ResolveToken(tokens[i], old(counts)) == Some(verts[i])) &&
        counts == old(counts).(triangles := old(counts.triangles) + old(Emitted(|verts|)),
                               faces := old(counts.faces) + 1) &&
        FanWritten(indexed[..], old(indexed[..]), old(counts.triangles), counts.triangles, Fan(verts))
    {
      var valid, vs := ResolveFace(tokens, counts);
      verts := vs;
      if !valid || |vs| < 3 {
        return false, verts;
      }
      EmitFan(vs);
      emitted := true;
    }
  }

  // ---------------------------------------------------------------- flatten

  /** `_vertex`: the attribute values of one corner, opaque here. */
  datatype Vertex<P, T, N> = Vertex(pos: P, tex: T, norm: N)

  /** The vertex an indexed vertex stands for: each attribute is looked up when its index
      is in range and keeps the zero value otherwise. */
  function Build<P, T, N>(iv: IndexedVertex, positions: seq<P>, texcoords: seq<T>, normals: seq<N>,
                          zero: Vertex<P, T, N>): Vertex<P, T, N>
  {
    Vertex(if 0 <= iv.pos < |positions| then positions[iv.pos] else zero.pos,
           if 0 <= iv.tex < |texcoords| then texcoords[iv.tex] else zero.tex,
           if 0 <= iv.norm < |normals| then normals[iv.norm] else zero.norm)
  }

  /** The vertex of every corner, in order. */
  function Corners<P, T, N>(indexed: seq<IndexedVertex>, positions: seq<P>, texcoords: seq<T>,
                            normals: seq<N>, zero: Vertex<P, T, N>): (r: seq<Vertex<P, T, N>>)
    ensures |r| == |indexed|
    ensures forall i :: 0 <= i < |indexed| ==> r[i] == Build(indexed[i], positions, texcoords, normals, zero)
    decreases |indexed|
  {
    if indexed == [] then []
    else Corners(indexed[..|indexed| - 1], positions, texcoords, normals, zero) +
         [Build(indexed[|indexed| - 1], positions, texcoords, normals, zero)]
  }

  /** The distinct elements of s in order of first occurrence. */
  function Uniques<V(==)>(s: seq<V>): seq<V>
    decreases |s|
  {
    if s == [] then []
    else
      var u := Uniques(s[..|s| - 1]);
      if s[|s| - 1] in u then u else u + [s[|s| - 1]]
  }

  predicate Distinct<V(==)>(s: seq<V>) {
    forall i, j :: 0 <= i < j < |s| ==> s[i] != s[j]
  }

  lemma UniquesSnoc<V>(s: seq<V>, x: V)
    ensures Uniques(s + [x]) == if x in Uniques(s) then Uniques(s) else Uniques(s) + [x]
  {
    assert (s + [x])[..|s|] == s;
  }

  /** Uniques has no repetitions. */
  lemma {:induction false} UniquesDistinct<V>(s: seq<V>)
    ensures Distinct(Uniques(s))
    decreases |s|
  {
    if s != [] {
      UniquesDistinct(s[..|s| - 1]);
    }
  }

  /** Uniques keeps exactly the elements of its argument. */
  lemma {:induction false} UniquesMembers<V>(s: seq<V>)
    ensures forall x :: x in Uniques(s) <==> x in s
    decreases |s|
  {
    if s != [] {
      var init := s[..|s| - 1];
      UniquesMembers(init);
      assert s == init + [s[|s| - 1]];
      forall x
        ensures x in s <==> x in init || x == s[|s| - 1]
      {
      }
    }
  }

  /** The dedup lookup: the position of v among the first n stored vertices. */
  method Find<V(==)>(unique: array<V>, n: nat, v: V)
    returns (found: bool, index: nat)
    requires n <= unique.Length
    ensures found ==> index < n && unique[index] == v
    ensures !found ==> v !in unique[..n]
  {
    var k := 0;
    while k < n
      invariant k <= n
      invariant v !in unique[..k]
    {
      if unique[k] == v {
        return true, k;
      }
      k := k + 1;
    }
    return false, 0;
  }

  /** The lookup-or-insert step of flatten: the index of v among the first count stored
      vertices, appending v first when it is not there yet. */
  method AddCorner<V(==)>(unique: array<V>, count: nat, v: V)
    returns (index: nat, count': nat)
    requires count < unique.Length
    modifies unique
    ensures count <= count' <= count + 1
    ensures unique[..count'] == if v in old(unique[..count]) then old(unique[..count])
                                else old(unique[..count]) + [v]
    ensures index < count' && unique[index] == v
    ensures forall k :: 0 <= k < count ==> unique[k] == old(unique[k])
  {
    var found;
    found, index := Find(unique, count, v);
    if found {
      count' := count;
    } else {
      unique[count] := v;
      index := count;
      count' := count + 1;
      assert unique[..count'] == old(unique[..count]) + [v];
    }
  }

  /** The first i slots of o index into the first count stored vertices u, each at the
      vertex built for its corner. */
  ghost predicate PointsInto<V>(u: seq<V>, o: seq<nat>, count: nat, built: seq<V>, i: nat) {
    i <= |o| && i <= |built| && count <= |u| &&
    forall k :: 0 <= k < i ==> o[k] < count && u[o[k]] == built[k]
  }

  /** Storing corner i's index keeps the earlier indexes valid when the stored prefix is
      kept and only grows. */
  lemma PointsIntoStep<V>(u: seq<V>, u': seq<V>, o: seq<nat>, count: nat, count': nat, built: seq<V>,
                          i: nat, index: nat)
    requires PointsInto(u, o, count, built, i) && i < |o| && i < |built|
    requires count <= count' <= |u'| && forall k :: 0 <= k < count ==> u'[k] == u[k]
    requires index < count' && u'[index] == built[i]
    ensures PointsInto(u', o[i := index], count', built, i + 1)
  {
  }

  /** One iteration of flatten's main loop: corner i is stored when new and its index
      goes to out[i]. */
  method DedupCorner<P(==), T(==), N(==)>(built: seq<Vertex<P, T, N>>, i: nat,
                                          unique: array<Vertex<P, T, N>>, out: array<nat>, count: nat)
    returns (count': nat)
    requires i < |built| && unique.Length == out.Length == |built|
    requires count <= i && unique[..count] == Uniques(built[..i])
    requires PointsInto(unique[..], out[..], count, built, i)
    modifies unique, out
    ensures count' <= i + 1 && unique[..count'] == Uniques(built[..i + 1])
    ensures PointsInto(unique[..], out[..], count', built, i + 1)
  {
    var v := built[i];
    UniquesSnoc(built[..i], v);
    assert built[..i + 1] == built[..i] + [v];
    ghost var u0, o0 := unique[..], out[..];
    var index;
    index, count' := AddCorner(unique, count, v);
    PointsIntoStep(u0, unique[..], o0, count, count', built, i, index);
    out[i] := index;
    assert out[..] == o0[i := index];
  }

  /** The main loop of flatten: each corner is looked up among the vertices stored so far
      and stored when new; its index goes to out. */
  method Dedup<P(==), T(==), N(==)>(built: seq<Vertex<P, T, N>>, unique: array<Vertex<P, T, N>>,
                                    out: array<nat>) returns (count: nat)
    requires unique.Length == out.Length == |built|
    modifies unique, out
    ensures count <= unique.Length
    ensures unique[..count] == Uniques(built)
    ensures PointsInto(unique[..], out[..], count, built, |built|)
  {
    count := 0;
    var i: nat := 0;
    while i < |built|
      invariant count <= i <= |built|
      invariant unique[..count] == Uniques(built[..i])
      invariant PointsInto(unique[..], out[..], count, built, i)
    {
      count := DedupCorner(built, i, unique, out, count);
      i := i + 1;
    }
    assert built[..i] == built;
  }

  /** flatten: one index per indexed vertex, pointing into the list of distinct built
      vertices in first-occurrence order. */
  method Flatten<P(==), T(==), N(==)>(indexed: seq<IndexedVertex>, triangles: nat,
                                      positions: seq<P>, texcoords: seq<T>, normals: seq<N>,
                                      zero: Vertex<P, T, N>)
    returns (vertices: seq<Vertex<P, T, N>>, indices: seq<nat>, indexCount: nat)
    requires |indexed| == 3 * triangles
    ensures indexCount == 3 * triangles && |indices| == indexCount
    ensures triangles == 0 ==> vertices == [] && indices == []
    ensures forall i :: 0 <= i < |indices| ==>
      indices[i] < |vertices| &&
      vertices[indices[i]] == Build(indexed[i], positions, texcoords, normals, zero)
    ensures Distinct(vertices)
    ensures vertices == Uniques(Corners(indexed, positions, texcoords, normals, zero))
  {
    indexCount := 3 * triangles;
    if indexCount == 0 {
      return [], [], indexCount;
    }
    var built := Corners(indexed, positions, texcoords, normals, zero);
    var unique := new Vertex<P, T, N>[indexCount](_ => zero);
    var out := new nat[indexCount];
    var count := Dedup(built, unique, out);
    UniquesDistinct(built);
    vertices := unique[..count];
    indices := out[..];
  }
}
