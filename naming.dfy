/**
 * Archive entry names. Each activity becomes `{ url, name }` with
 * `name = created_at + "." + object_id`; the entry stored for it is named
 * `name + "." + extension`, where the extension is the segment at index 1
 * of the payload's MIME type split on "/" (JavaScript's `undefined`,
 * rendered "undefined", when the type has no "/").
 */
module Naming {
  import opened Wrappers
  import opened Api

  /** One input of the archive builder: where to fetch, and the base name of the entry. */
  datatype ImageRef = ImageRef(url: string, name: string)

  /** JavaScript's `s.split(sep)` for a one-character separator. */
  function Split(s: string, sep: char): (parts: seq<string>)
    ensures |parts| >= 1
    ensures forall k :: 0 <= k < |parts| ==> sep !in parts[k]
  {
    if s == [] then [""]
    else
      var rest := Split(s[1..], sep);
      if s[0] == sep then [""] + rest else [[s[0]] + rest[0]] + rest[1..]
  }

  /** JavaScript's `parts.join(sep)`. */
  function Join(parts: seq<string>, sep: char): string
    requires |parts| >= 1
  {
    if |parts| == 1 then parts[0] else parts[0] + [sep] + Join(parts[1..], sep)
  }

  /** Splitting loses nothing: joining the parts back gives the input. */
  lemma {:induction false} JoinSplit(s: string, sep: char)
    ensures Join(Split(s, sep), sep) == s
  {
    if s != [] {
      var rest := Split(s[1..], sep);
      JoinSplit(s[1..], sep);
      if s[0] != sep {
        var parts := Split(s, sep);
        assert parts[0] == [s[0]] + rest[0];
        if |rest| == 1 {
          assert parts == [[s[0]] + rest[0]];
        } else {
          assert parts[1..] == rest[1..];
          assert Join(rest, sep) == rest[0] + [sep] + Join(rest[1..], sep);
        }
      } else {
        assert Split(s, sep)[1..] == rest;
      }
    }
  }

  /** A separator-free segment followed by the separator becomes one part of its own. */
  lemma {:induction false} SplitAfterSegment(w: string, sep: char, t: string)
    requires sep !in w
    ensures Split(w + [sep] + t, sep) == [w] + Split(t, sep)
  {
    var s := w + [sep] + t;
    if w == [] {
      assert s[1..] == t;
    } else {
      assert s[0] == w[0];
      assert s[1..] == w[1..] + [sep] + t;
      SplitAfterSegment(w[1..], sep, t);
      assert [w[0]] + w[1..] == w;
    }
  }

  /** A separator-free string is a single part. */
  lemma {:induction false} SplitSegment(w: string, sep: char)
    requires sep !in w
    ensures Split(w, sep) == [w]
  {
    if w != [] {
      SplitSegment(w[1..], sep);
      assert [w[0]] + w[1..] == w;
    }
  }

  /** Joining separator-free parts and splitting again gives the parts back. */
  lemma {:induction false} SplitJoin(parts: seq<string>, sep: char)
    requires |parts| >= 1
    requires forall k :: 0 <= k < |parts| ==> sep !in parts[k]
    ensures Split(Join(parts, sep), sep) == parts
  {
    if |parts| == 1 {
      SplitSegment(parts[0], sep);
    } else {
      SplitJoin(parts[1..], sep);
      SplitAfterSegment(parts[0], sep, Join(parts[1..], sep));
    }
  }

  /** `const [type, extension] = mimeType.split("/")`: the extension, absent without a "/". */
  function Extension(mimeType: string): (ext: Option<string>)
    ensures ext.Some? ==> '/' !in ext.value
  {
    var parts := Split(mimeType, '/');
    if |parts| >= 2 then Some(parts[1]) else None
  }

  /** The extension of a type made of "/"-free segments is the second segment. */
  lemma ExtensionOfSegments(parts: seq<string>)
    requires |parts| >= 2
    requires forall k :: 0 <= k < |parts| ==> '/' !in parts[k]
    ensures Extension(Join(parts, '/')) == Some(parts[1])
  {
    SplitJoin(parts, '/');
  }

  /** `type/subtype` has the extension `subtype`. */
  lemma ExtensionOfType(t: string, subtype: string)
    requires '/' !in t && '/' !in subtype
    ensures Extension(t + "/" + subtype) == Some(subtype)
  {
    ExtensionOfSegments([t, subtype]);
    assert Join([subtype], '/') == subtype;
  }

  /** The extension is absent exactly when the type has no "/". */
  lemma ExtensionAbsent(mimeType: string)
    ensures Extension(mimeType) == None <==> '/' !in mimeType
  {
    if '/' !in mimeType {
      SplitSegment(mimeType, '/');
    } else {
      JoinSplit(mimeType, '/');
    }
  }

  /** The extension is the "/"-free text between the first "/" and the next "/" (or the end). */
  lemma ExtensionIsSecondSegment(mimeType: string, ext: string)
    requires Extension(mimeType) == Some(ext)
    ensures '/' !in ext
    ensures exists t, rest ::
      && '/' !in t
      && mimeType == t + "/" + ext + rest
      && (rest == [] || "/" <= rest)
  {
    var parts := Split(mimeType, '/');
    JoinSplit(mimeType, '/');
    var t := parts[0];
    var tail := Join(parts[1..], '/');
    assert mimeType == t + "/" + tail;
    assert parts[1..][0] == ext;
    if |parts| == 2 {
      var rest: string := [];
      assert tail == ext;
      assert mimeType == t + "/" + ext + rest;
    } else {
      var rest := "/" + Join(parts[2..], '/');
      assert tail == ext + rest by {
        assert parts[1..][1..] == parts[2..];
      }
      assert mimeType == t + "/" + ext + rest;
    }
  }

  /** The template literal `${extension}`: `undefined` prints as "undefined". */
  function ExtensionText(ext: Option<string>): string {
    match ext
    case Some(e) => e
    case None => "undefined"
  }

  /**
   * Two extensions print alike exactly when they are equal, or when one is
   * undefined and the other is the text "undefined" (`image` and `x/undefined`).
   */
  lemma ExtensionTextCollision(e1: Option<string>, e2: Option<string>)
    ensures ExtensionText(e1) == ExtensionText(e2) <==>
      || e1 == e2
      || (e1 == None && e2 == Some("undefined"))
      || (e1 == Some("undefined") && e2 == None)
  {
  }

  /** The name an entry is stored under: `${img.name}.${extension}`. */
  function EntryName(baseName: string, mimeType: string): string {
    baseName + "." + ExtensionText(Extension(mimeType))
  }

  /** An entry name is the base name, a ".", then the extension text, which has no "/". */
  lemma EntryNameParts(baseName: string, mimeType: string)
    ensures baseName + "." <= EntryName(baseName, mimeType)
    ensures EntryName(baseName, mimeType)[|baseName| + 1..] == ExtensionText(Extension(mimeType))
    ensures '/' !in EntryName(baseName, mimeType)[|baseName| + 1..]
  {
  }

  lemma JpegEntryName(baseName: string)
    ensures EntryName(baseName, "image/jpeg") == baseName + ".jpeg"
  {
  }

  /** A type without "/" (the empty type of an unlabelled blob among them) yields ".undefined". */
  lemma UndefinedEntryName(baseName: string, mimeType: string)
    requires '/' !in mimeType
    ensures EntryName(baseName, mimeType) == baseName + ".undefined"
  {
    ExtensionAbsent(mimeType);
  }

  /** `x.created_at + "." + x.object_id`. */
  function BaseName(a: Activity): (name: string)
    ensures |name| == |a.createdAt| + 1 + |a.objectId|
    ensures a.createdAt + "." <= name
    ensures '.' !in a.objectId ==> forall i :: |a.createdAt| < i < |name| ==> name[i] != '.'
  {
    a.createdAt + "." + a.objectId
  }

  /** `images.map((x) => ({ url: x.media.image_url, name: ... }))`: one reference per activity, in order. */
  function ImageRefs(activities: seq<Activity>): (refs: seq<ImageRef>)
    ensures |refs| == |activities|
    ensures forall k :: 0 <= k < |refs| ==>
      refs[k].url == activities[k].media.imageUrl && refs[k].name == BaseName(activities[k])
  {
    if activities == [] then []
    else [ImageRef(activities[0].media.imageUrl, BaseName(activities[0]))] + ImageRefs(activities[1..])
  }

  /** In `x + "." + y` with a dot-free `y`, the last "." is the one at index |x|. */
  lemma LastDot(x: string, y: string)
    requires '.' !in y
    ensures (x + "." + y)[|x|] == '.'
    ensures forall i :: |x| < i < |x + "." + y| ==> (x + "." + y)[i] != '.'
  {
  }

  /** A name joined with "." to a dot-free suffix determines both halves. */
  lemma DotJoinInjective(x1: string, y1: string, x2: string, y2: string)
    requires '.' !in y1 && '.' !in y2
    ensures x1 + "." + y1 == x2 + "." + y2 <==> x1 == x2 && y1 == y2
  {
    var s1, s2 := x1 + "." + y1, x2 + "." + y2;
    if s1 == s2 {
      LastDot(x1, y1);
      LastDot(x2, y2);
      assert s1[|x2|] == '.';
      assert s2[|x1|] == '.';
      assert |x1| == |x2|;
      assert x1 == s1[..|x1|] == s2[..|x2|] == x2;
      assert y1 == s1[|x1| + 1..] == s2[|x2| + 1..] == y2;
    }
  }

  /** Activities with dot-free object ids share a base name only if they share date and id. */
  lemma BaseNameInjective(a: Activity, b: Activity)
    requires '.' !in a.objectId && '.' !in b.objectId
    ensures BaseName(a) == BaseName(b) <==> a.createdAt == b.createdAt && a.objectId == b.objectId
  {
    DotJoinInjective(a.createdAt, a.objectId, b.createdAt, b.objectId);
  }

  /** With dot-free extensions, two entries collide only if base names and extensions agree. */
  lemma EntryNameInjective(base1: string, mime1: string, base2: string, mime2: string)
    requires '.' !in ExtensionText(Extension(mime1)) && '.' !in ExtensionText(Extension(mime2))
    ensures EntryName(base1, mime1) == EntryName(base2, mime2) <==>
      base1 == base2 && ExtensionText(Extension(mime1)) == ExtensionText(Extension(mime2))
  {
    DotJoinInjective(base1, ExtensionText(Extension(mime1)), base2, ExtensionText(Extension(mime2)));
  }
}
