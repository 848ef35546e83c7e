# sf2g text rendering core, modelled in Dafny

sf2g is a Rust binding to SFML's graphics module, plus a Rust port of parts of it.
This project models the part that turns a string into geometry:

- `Text` (src/graphics/text.rs) keeps a string, a font, style settings and a
  transformable placement. It regenerates its triangle lists and bounds
  (`ensure_geometry_update`) and reports the position of a character
  (`find_character_pos`).
- `TransformableData` (src/graphics/transformable.rs) turns an origin, a
  position, a rotation and a scale into a 3x3 affine matrix.
- `vertex_array_bounds` (src/graphics/mod.rs) computes the bounding rectangle
  of a vertex list.
- `SfError` and its conversions (src/lib.rs).
- `sf::Font` (CSFML/src/Graphics/Font.cpp) manages the glyph cache and texture
  atlas:
  - FreeType handles are shared between copies by a reference count.
  - Each character size has its own page of cached glyphs.
  - Glyphs are packed into rows of a texture that doubles when it is full.
  - Each rasterised bitmap is copied into a padded RGBA pixel buffer before
    upload.

Modules, one per file:

| file | module | models |
|---|---|---|
| graphics.dfy | `Graphics` | value types, `Transform::translate`, `vertex_array_bounds` |
| sf_errors.dfy | `SfErrors` | `SfError`, `Display`, `From<NulError>`, `IntoSfResult` |
| transformable.dfy | `Transformable` | `TransformableData::default` and `get` |
| text_geometry.dfy | `TextGeometry` | `add_line`, `add_glyph_quad`, and the layout walk as pure functions (`Step`, `Run`, `Finish`, `Layout`, `CaretAfter`) with their lemmas |
| text.dfy | `Text` | class `Text` with its fields and imperative methods |
| glyph_key.dfy | `GlyphKey` | `combine`, the 64-bit glyph cache key |
| glyph_pixels.dfy | `GlyphPixels` | the padded RGBA image of a glyph bitmap |
| font_page.dfy | `FontPage` | `Page`, `Row`, row selection and texture growth of `findGlyphRect` |
| font.dfy | `FontAtlas` | class `Font` with its fields and imperative methods |

The imperative methods are proved against pure specification functions. For
example:

- The loop of `EnsureGeometryUpdate` computes `Layout`.
- The loop of `FindCharacterPos` computes `CaretAfter`.
- `FindGlyphRect` computes `Place`.
- `LoadGlyph` computes `Loaded`.
- `GetGlyph` computes `Fetched`.
- `FillPixelBuffer` produces `IsGlyphImage`.

The properties are lemmas about those functions.

Modelling choices:

- Numbers are `real`, so f32 rounding is not modelled. The f32 constants
  0.7f, PI and the italic shear 0.209 are written out as their exact f32
  values.
- The font a `Text` reads from is a `FontMetrics` value holding one function
  per query, so every lemma holds for every font.
- FreeType is a `FreeType` value holding functions for glyph indices, bit
  patterns, rasterisation, kerning and the maximum texture size. Opening a
  font file is an `Opening` value that says how far the opening got.
- cos and sin are a `Trig` parameter.

## Model

| member | source | states |
|---|---|---|
| Graphics.VertexArrayBounds | src/graphics/mod.rs:70-99 | The empty list gives the default rectangle. Otherwise the result holds every vertex position and each of its four sides is attained by some vertex. One vertex gives a zero-size rectangle at that vertex. |
| Graphics.BoundsAreMinimal | src/graphics/mod.rs:68-99 | Every rectangle that holds all the vertices also holds the computed bounds, so the bounds are the smallest such rectangle. |
| Graphics.BoundsIgnoreOrder | src/graphics/mod.rs:70-99 | Two vertex lists with the same elements in any order have the same bounds. |
| Graphics.TranslateMovesPoints | src/graphics/text.rs:715-718 | The translated transform maps each point p as the old transform maps p + (dx, dy). |
| SfErrors.Message | src/lib.rs:45-52 | Each variant has a fixed, non-empty message. |
| SfErrors.MessagesDistinct | src/lib.rs:45-52 | Different variants have different messages. |
| SfErrors.FromNulError | src/lib.rs:54-58 | Every nul error converts to `NulInStr`. |
| SfErrors.BoolIntoSfResult | src/lib.rs:69-77 | The result is `Ok` if and only if the flag is true. Otherwise the error is `CallFailed`. |
| SfErrors.OptionIntoSfResult | src/lib.rs:79-83 | The result is `Ok` if and only if the option is `Some`, and it carries the same value. `None` gives `CallFailed`. |
| SfErrors.OptionRoundTrip | src/lib.rs:79-83 | Reading the result back as an option gives the original option. |
| Transformable.Default | src/graphics/transformable.rs:71-81 | No origin and no offset, no rotation, and a scale of (1, 1). |
| Transformable.Get | src/graphics/transformable.rs:85-97 | The third row is (0, 0, 1). The linear part is the rotation by the negated angle times the scale: (sx·c, sy·s; -sx·s, sy·c). |
| Transformable.GetIsComposition | src/graphics/transformable.rs:85-97 | The closed form equals translate(position) · rotate · scale · translate(-origin). |
| Transformable.OriginMapsToPosition | src/graphics/transformable.rs:85-97 | The transform maps the origin exactly onto the position, whatever the rotation and scale. |
| Transformable.ZeroOriginTranslation | src/graphics/transformable.rs:85-97 | With the origin at (0, 0), the translation column is the position. |
| Transformable.DefaultIsIdentity | src/graphics/transformable.rs:72-82 | The default data gives the identity matrix, given cos 0 = 1 and sin 0 = 0. |
| TextGeometry.AddLine | src/graphics/text.rs:50-100 | Appends exactly 6 vertices and keeps the earlier ones. Each new vertex is the corner of the bar given by its position in the two triangles. |
| TextGeometry.LineQuadBounds | src/graphics/text.rs:50-100 | The 6 new vertices span exactly the bar. It runs from -t to length + t across, and from its rounded top - t over the rounded thickness + 2t down, where t is the outline thickness. |
| TextGeometry.AddLineAppends | src/graphics/text.rs:50-100 | Adding a line to a list equals the list followed by the line added to an empty list. |
| TextGeometry.AddGlyphQuad | src/graphics/text.rs:103-160 | Appends exactly 6 vertices and keeps the earlier ones. Each new vertex is a corner of the padded, sheared glyph box and carries the matching corner of the padded texture rectangle. |
| TextGeometry.GlyphQuadBounds | src/graphics/text.rs:103-160 | Without shear, the quad spans the glyph bounds grown by 1 on each side, at the pen position. |
| TextGeometry.MakeEnv | src/graphics/text.rs:486-508 | Keeps the character size and the bold flag. The shear is non-zero exactly for italic text. The whitespace width is the space advance plus the letter spacing, and a spacing factor of 1 gives no letter spacing. |
| TextGeometry.Step | src/graphics/text.rs:516-622 | A carriage return changes nothing. Any other character becomes the previous character. Only a newline moves the pen down, by the line spacing. The extremes only widen. |
| TextGeometry.Run | src/graphics/text.rs:509-623 | From the start values (size, size, 0, 0), the extremes stay at most the size on the minimum side and at least 0 on the maximum side. Without a newline, the pen stays on the first line, at y = size. |
| TextGeometry.Finish | src/graphics/text.rs:624-679 | The bounds hold the extremes of the walk, also when they are grown by the outline thickness. |
| TextGeometry.Layout | src/graphics/text.rs:479-680 | The empty string gives no vertices and the default rectangle. Otherwise the bounds reach from at most the size to at least 0 on both axes. |
| TextGeometry.StepBranch | src/graphics/text.rs:516-622 | Any character other than a carriage return steps as whitespace if it is a space, tab or newline, and as a glyph otherwise, after kerning and decorations. |
| TextGeometry.DecorateBothCounts | src/graphics/text.rs:526-571 | The decorations add 6 fill vertices per active style, and the outline list keeps matching the fill list. |
| TextGeometry.StepCounts | src/graphics/text.rs:516-622 | One character adds 6 vertices if it is visible, plus the decorations of a new line break. The previous-character code is updated unless the character is a carriage return. |
| TextGeometry.RunCounts | src/graphics/text.rs:516-623 | After the walk there are 6 fill vertices per visible character plus 6 per decoration per line break. The previous code is that of the last character other than a carriage return. |
| TextGeometry.FinishCounts | src/graphics/text.rs:624-679 | The end of the walk adds the decorations of the last line only when the pen x is positive. The outline list keeps matching the fill list. |
| TextGeometry.LayoutCounts | src/graphics/text.rs:470-680 | A non-empty string gives 6 vertices per visible character plus decoration vertices for each line break and for a non-empty last line. |
| TextGeometry.NewlineDecorations | src/graphics/text.rs:526-571 | A newline that does not follow a newline appends the underline and then the strike-through bar, each when its style is set, at the kerned pen. Otherwise it adds nothing. |
| TextGeometry.DecorateBothFill | src/graphics/text.rs:526-571 | The fill list gains the underline bar and then the strike-through bar, each only when its style is set and the position is decorated. |
| TextGeometry.DecorateFill | src/graphics/text.rs:526-548 | One decoration appends one bar to the fill list. |
| TextGeometry.EmptyLayout | src/graphics/text.rs:479-485 | The empty string gives no vertices and the default bounds. |
| TextGeometry.RemoveCR | src/graphics/text.rs:517-519 | The filtered string contains no carriage return. |
| TextGeometry.RunIgnoresCR | src/graphics/text.rs:516-519 | Removing every carriage return leaves the walk unchanged. |
| TextGeometry.LayoutIgnoresCR | src/graphics/text.rs:470-519 | When something remains after removing carriage returns, the geometry does not change. |
| TextGeometry.LoneCarriageReturn | src/graphics/text.rs:483-485 | "\r" alone does not give the bounds of the empty string (the emptiness test runs before the filter). |
| TextGeometry.CaretStep | src/graphics/text.rs:360-381 | The character becomes the previous one. Only a newline moves the caret down, by the line spacing. After a newline, x is the newline's advance plus the letter spacing. |
| TextGeometry.CaretAfter | src/graphics/text.rs:358-381 | The empty string leaves the caret at (0, 0) with no previous character. Otherwise the last character is the previous one. Without a newline, the caret stays at y = 0. |
| TextGeometry.CaretFollowsLayout | src/graphics/text.rs:347-383 | For strings with no whitespace or carriage return, the caret of `find_character_pos` ends where the layout pen ends: the same x, y lowered by the character size, and the same previous code. |
| TextGeometry.CaretAheadOfLayout | src/graphics/text.rs:347-383 | On strings without carriage returns, the caret and the layout pen see the same previous character, the caret's y is the pen's y minus the size, and the caret is ahead in x by exactly `CaretGap`: the advance plus letter spacing of every space and tab since the last newline, and of that newline. |
| TextGeometry.SecondBoxOutsideBounds | src/graphics/text.rs:614-622 | As written, "aa" in a font of 10 x 10 boxes gets bounds ending at x = 10, while the second quad reaches x = 21. |
| TextGeometry.CorrectedStepCoversGlyph | src/graphics/text.rs:614-622 | With the right extreme taken at the pen x, the extremes hold the glyph's sheared box at the pen and never shrink. |
| TextGeometry.SecondBoxInsideCorrected | src/graphics/text.rs:614-622 | With the correction, the second box of "aa" moves the right extreme to 20. |
| Text.Text.Default | src/graphics/text.rs:163-190 | Empty string, no font, size 30, spacing factors 1, regular style, white fill, black outline of thickness 0, empty geometry. Origin, position and scale are (0, 0), rotation is 0, and the transforms are the identity with their flags clear. |
| Text.Text.New | src/graphics/text.rs:202-208 | The string, font and size are set, everything else is the default, and the geometry is stale exactly when the string is not empty. |
| Text.Text.SetString | src/graphics/text.rs:216-221 | Stores the string. The geometry becomes stale when the string differs and is otherwise left as it was. |
| Text.Text.SetFont | src/graphics/text.rs:247-249 | Stores the font and changes nothing else. |
| Text.Text.SetStyle | src/graphics/text.rs:259-261 | Stores the style and changes nothing else. |
| Text.Text.SetCharacterSize | src/graphics/text.rs:269-271 | Stores the size and changes nothing else. |
| Text.Text.SetFillColor | src/graphics/text.rs:294-296 | Stores the fill color and changes nothing else. |
| Text.Text.SetOutlineColor | src/graphics/text.rs:301-303 | Stores the outline color and changes nothing else. |
| Text.Text.SetOutlineThickness | src/graphics/text.rs:311-313 | Stores the thickness and changes nothing else. |
| Text.Text.SetLineSpacing | src/graphics/text.rs:439-441 | Stores the line spacing factor and changes nothing else. |
| Text.Text.SetLetterSpacing | src/graphics/text.rs:454-456 | Stores the letter spacing factor and changes nothing else. |
| Text.Text.EnsureGeometryUpdate | src/graphics/text.rs:470-680 | Without a font, nothing changes. With one, the flag is cleared and the vertex lists and bounds become `Layout` of the current settings and string. The empty string gives empty lists and the default rectangle. `Layout` reads no field the method changes, so a second call gives the same geometry. |
| Text.Text.LayoutCharacter | src/graphics/text.rs:516-622 | One loop iteration updates the pen, the extremes, the previous character and both vertex lists exactly as one `Step` of the walk. |
| Text.Text.LayoutGlyph | src/graphics/text.rs:591-622 | The glyph branch of the loop adds the outline quad and the fill quad and updates the extremes and the pen exactly as `GlyphStep`. |
| Text.Text.AddDecorationLine | src/graphics/text.rs:526-571 | Adds one bar to the fill list, and to the outline list when the text is outlined. |
| Text.Text.GetTransform | src/graphics/text.rs:385-400 | A stale transform is recomputed as `Get` of the placement. A fresh one is returned unchanged. The flag ends cleared. |
| Text.Text.FindCharacterPos | src/graphics/text.rs:347-383 | Without a font, (0, 0) and no change. With one, the caret after the first min(index, length) characters, mapped through the transform `GetTransform` returns. |
| Text.Text.SetPosition | src/graphics/text.rs:691-693 | Overwrites the position and changes nothing else. |
| Text.Text.SetRotation | src/graphics/text.rs:694-696 | Overwrites the rotation and changes nothing else. |
| Text.Text.SetScale | src/graphics/text.rs:697-699 | Overwrites the scale and changes nothing else. |
| Text.Text.SetOrigin | src/graphics/text.rs:700-702 | Overwrites the origin and changes nothing else. |
| Text.Text.Move | src/graphics/text.rs:715-718 | Translates the cached transform by the offset and leaves the position alone. |
| Text.Text.Rotate | src/graphics/text.rs:719-721 | Sets the rotation to the angle. |
| Text.Text.Scale | src/graphics/text.rs:722-724 | Sets the scale to the factors. |
| Text.Text.MoveBy | src/graphics/transformable.rs:41-45 | Adds the offset to the position. |
| Text.Text.RotateBy | src/graphics/transformable.rs:46-50 | Adds the angle to the rotation. |
| Text.Text.ScaleBy | src/graphics/transformable.rs:51-55 | Multiplies the scale by the factors, componentwise. |
| Text.MoveKeepsPosition | src/graphics/text.rs:715-718 | Moving a new text by (5, 0) leaves its position at (0, 0). |
| Text.MoveByShiftsPosition | src/graphics/transformable.rs:41-45 | Moving a new text by (5, 0) as documented puts it at (5, 0). |
| Text.RotateTwiceOverwrites | src/graphics/text.rs:719-721 | Rotating by 30 and then 45 degrees leaves the rotation at 45. |
| Text.RotateByTwiceAdds | src/graphics/transformable.rs:46-50 | Rotating by 30 and then 45 degrees as documented gives 75. |
| Text.ScaleTwiceOverwrites | src/graphics/text.rs:722-724 | From unit scale, scaling by 2 and then 3 leaves the scale at 3. |
| Text.ScaleByTwiceMultiplies | src/graphics/transformable.rs:51-55 | From unit scale, scaling by 2 and then 3 as documented gives 6. |
| GlyphKey.Combine | CSFML/src/Graphics/Font.cpp:448-451 | The thickness bits can be read back from bits 32..63. When the index fits in 31 bits, the bold flag and the index can be read back too. |
| GlyphKey.CombineInjective | CSFML/src/Graphics/Font.cpp:448-451 | Distinct (thickness, bold, index) triples with indices below 2^31 get distinct keys. |
| GlyphKey.HighIndexCollides | CSFML/src/Graphics/Font.cpp:448-451 | An index with bit 31 set gives the same key for its regular and bold glyph. |
| GlyphPixels.BlankIsStart | CSFML/src/Graphics/Font.cpp:959-970 | A buffer of transparent white pixels is the padded image before its first bitmap row. |
| GlyphPixels.WriteAlpha | CSFML/src/Graphics/Font.cpp:979-984 | Writing the bitmap coverage into the alpha byte of an inside pixel advances the partial image by one pixel: every earlier pixel keeps its final bytes and every later pixel stays transparent white. |
| GlyphPixels.OffsetInjective | CSFML/src/Graphics/Font.cpp:982-983 | Different channels of different pixels never share a byte of the buffer. |
| GlyphPixels.SkipBottomBorder | CSFML/src/Graphics/Font.cpp:977-1001 | Once every bitmap row is copied, the buffer is the complete padded image: white color channels, alpha from the bitmap inside, transparent border. |
| FontPage.EmptyPage | CSFML/src/Graphics/Font.cpp:1130-1145 | A new page is valid, with no glyphs and no rows. |
| FontPage.NewPage | CSFML/src/Graphics/Font.cpp:1130-1145 | The new page comes with a 128 x 128 image: transparent white, except an opaque white 2 x 2 square in the corner. |
| FontPage.Smoothed | CSFML/src/Graphics/Font.cpp:762-765 | Only the texture's smoothing flag changes. The page stays valid, and the page is unchanged when the flag already matches. |
| FontPage.Insert | CSFML/src/Graphics/Font.cpp:640 | The glyph is cached under its key, and the texture and validity are kept. |
| FontPage.FirstFit | CSFML/src/Graphics/Font.cpp:1025-1044 | Picks the first row that fits (height ratio in [0.7, 1], enough width left). No earlier row fits, and none is picked only when no row fits. |
| FontPage.FitIsTallEnough | CSFML/src/Graphics/Font.cpp:1027-1031 | A row that fits is at least as tall as the glyph. |
| FontPage.Grow | CSFML/src/Graphics/Font.cpp:1050-1070 | Succeeds if and only if the final texture has room for the new row. Failure means doubling would exceed the maximum size. The texture only grows, and a grown texture is within the maximum and smoothed as the font is. |
| FontPage.GrowKeepsRoomyTexture | CSFML/src/Graphics/Font.cpp:1050 | A texture that already has room is kept as it is. |
| FontPage.TooWideFails | CSFML/src/Graphics/Font.cpp:1050-1069 | From a texture no wider than the maximum texture size, a glyph at least as wide as that maximum can never be placed. |
| FontPage.Place | CSFML/src/Graphics/Font.cpp:1020-1085 | The page stays valid and keeps its glyphs. A replaced texture is smoothed as asked. With a fitting row, the glyph goes at the used end of the first such row (`FirstFit`), and the texture and `nextRow` stay. Otherwise a successful placement opens a row of height h + h/10 at `nextRow`, `nextRow` grows by that height, and the glyph goes at its left end. The placement fails exactly when no row fits and the texture cannot grow enough. A failure returns (0, 0, 2, 2) and leaves the rows and `nextRow` unchanged. Any other rectangle has the glyph's size and lies inside the texture. |
| FontPage.OnRow | CSFML/src/Graphics/Font.cpp:1079-1084 | On a row the glyph fits, the rectangle starts at the row's used width and top, lies inside the texture, and the page stays valid with the same texture and `nextRow`. |
| FontPage.OnNewRow | CSFML/src/Graphics/Font.cpp:1072-1084 | In a texture with room, the new row of height h + h/10 is appended at `nextRow` already holding the glyph, `nextRow` grows by that height, and the page stays valid. |
| FontPage.PlaceAppendsToOneRow | CSFML/src/Graphics/Font.cpp:1072-1084 | A successful placement appends the glyph to exactly one row (an existing row or one new row at the bottom) at that row's old width, and every other row is unchanged. |
| FontAtlas.Present | CSFML/src/Graphics/Font.cpp:814-828 | The released handles are exactly the non-null ones, and there are no more of them than handles. A single handle is released if and only if it is non-null. |
| FontAtlas.PresentAppend | CSFML/src/Graphics/Font.cpp:814-828 | The handles of a + b are released as those of a followed by those of b, so the list order is the release order. |
| FontAtlas.FaceBeforeStream | CSFML/src/Graphics/Font.cpp:818-826 | When the face and the stream are both live, the face is released immediately before the stream, after the stroker if there is one. |
| FontAtlas.Unpadded | CSFML/src/Graphics/Font.cpp:947-950 | The texture rectangle is shrunk by the padding on every side. |
| FontAtlas.Kerning | CSFML/src/Graphics/Font.cpp:653-657 | The kerning is 0 when either code point is 0. |
| FontAtlas.LoadedGlyph | CSFML/src/Graphics/Font.cpp:856-956 | With no face or a failed FreeType call, the empty glyph. Otherwise the advance is the rasterised advance, plus 1 when bold. An empty bitmap gives zero bounds and texture rectangle. A non-empty one gives the bitmap's bounds. Its texture rectangle is the rectangle `Place` gives it on the page, shrunk by the padding. |
| FontAtlas.Loaded | CSFML/src/Graphics/Font.cpp:856-1009 | The pages stay valid. Only a glyph with an image touches the pages: it creates the page of its size if needed, keeps that page's glyphs, and leaves every other page unchanged. |
| FontAtlas.LoadedAndCached | CSFML/src/Graphics/Font.cpp:638-641 | The glyph is the loaded glyph of the existing page of the size. The pages stay valid with the same sizes. That page gains the glyph under the key, with its other cached glyphs unchanged. Every other page is unchanged. |
| FontAtlas.Fetched | CSFML/src/Graphics/Font.cpp:621-642 | Afterwards the key names the returned glyph on the page of the size, and the pages stay valid. A hit returns the cached glyph and changes nothing. A miss returns the glyph loaded on that page (an empty page when the size had none). It adds the size to the table and caches the glyph under the key, keeping the page's other glyphs and every other page. |
| FontAtlas.MissCaches | CSFML/src/Graphics/Font.cpp:623-641 | Creating the missing page and then loading and caching the glyph keeps the pages valid. Only the page of the size changes, and the size joins the table. |
| FontAtlas.CachedAfterLoad | CSFML/src/Graphics/Font.cpp:638-641 | On an existing page, `LoadedAndCached` is `Loaded` followed by inserting the loaded glyph under the key on the page of the size. |
| FontAtlas.RefCount.constructor | CSFML/src/Graphics/Font.cpp:509 | The counter starts at the given value. |
| FontAtlas.Font.constructor | CSFML/src/Graphics/Font.cpp:458-470 | All handles null, no counter, smoothing on, no pages, empty buffer. |
| FontAtlas.Font.Copy | CSFML/src/Graphics/Font.cpp:474-494 | Copies every field, shares the counter, and increments the counter when there is one. |
| FontAtlas.Font.Cleanup | CSFML/src/Graphics/Font.cpp:800-840 | Decrements the shared counter. The last owner releases the non-null stroker, face, stream and library, in that order. All handles and the counter become null, and the pages and pixel buffer are emptied. The smoothing flag and the family name are kept. |
| FontAtlas.Font.LoadFromFile | CSFML/src/Graphics/Font.cpp:505-556 | Success exactly when the font opened. The old state is cleaned up and a fresh counter of 1 is installed. The library is kept whenever it was created. The face and stroker are kept only on success. A face or stroker created before a later failure is released. |
| FontAtlas.Font.Assign | CSFML/src/Graphics/Font.cpp:777-796 | The font takes all of the right font's fields. The right counter gains one owner, the old counter loses one, and assigning a font to one sharing its counter leaves the count alone. The old resources are released when their last owner goes. |
| FontAtlas.Font.Swap | CSFML/src/Graphics/Font.cpp:781-789 | Exchanges every field of the two fonts. |
| FontAtlas.Font.LoadPage | CSFML/src/Graphics/Font.cpp:844-852 | Returns the page of the size. An empty page smoothed as the font is gets inserted only when the size has none. |
| FontAtlas.Font.GetTexture | CSFML/src/Graphics/Font.cpp:750-753 | Returns the texture of the size's page (created if needed). It is non-empty and smoothed as the font is. |
| FontAtlas.Font.SetSmooth | CSFML/src/Graphics/Font.cpp:756-767 | Sets the flag and re-smooths every page texture. Setting the same value changes nothing. |
| FontAtlas.Font.FindGlyphRect | CSFML/src/Graphics/Font.cpp:1020-1085 | Returns `Place` of the page: the rectangle and the updated page. |
| FontAtlas.Font.ChooseRow | CSFML/src/Graphics/Font.cpp:1022-1044 | The search loop with its best-ratio test returns exactly `FirstFit` of the rows. |
| FontAtlas.Font.OpenRow | CSFML/src/Graphics/Font.cpp:1046-1084 | When no row fits, growing the texture and then opening a row or failing gives `Place` of the page. |
| FontAtlas.Font.TakeFromNewRow | CSFML/src/Graphics/Font.cpp:1072-1084 | Pushing an empty row at `nextRow` and taking the glyph from it gives `OnNewRow`. |
| FontAtlas.Font.TakeFromRow | CSFML/src/Graphics/Font.cpp:1079-1084 | The rectangle starts at the row's used width and top. Only that row changes, and it grows by the glyph's width. |
| FontAtlas.Font.GrowTexture | CSFML/src/Graphics/Font.cpp:1050-1070 | The doubling loop computes `Grow`. |
| FontAtlas.Font.FillTransparentWhite | CSFML/src/Graphics/Font.cpp:959-970 | Every pixel becomes (255, 255, 255, 0). |
| FontAtlas.Font.CopyRow | CSFML/src/Graphics/Font.cpp:977-1000 | Copying one bitmap row moves the partial image on to the next row. |
| FontAtlas.Font.CopyRows | CSFML/src/Graphics/Font.cpp:973-1000 | Copying the bitmap rows from a blank buffer gives the padded RGBA image of the bitmap. |
| FontAtlas.Font.FillPixelBuffer | CSFML/src/Graphics/Font.cpp:959-1001 | The buffer becomes the padded RGBA image of the bitmap, for monochrome and grey bitmaps alike. |
| FontAtlas.Font.PlaceGlyph | CSFML/src/Graphics/Font.cpp:940-943 | Places the padded glyph on the size's page (created if needed) and stores the updated page. |
| FontAtlas.Font.LoadGlyph | CSFML/src/Graphics/Font.cpp:856-1016 | The glyph and pages are `Loaded` of the old pages. When there is an image, the pixel buffer holds the padded image of the bitmap. Otherwise the buffer is unchanged. |
| FontAtlas.Font.GetGlyph | CSFML/src/Graphics/Font.cpp:621-642 | The glyph and pages are `Fetched` of the old pages, for the key combined from the thickness bits, the bold flag and the glyph index. A cached glyph leaves the pixel buffer unchanged. |
| FontAtlas.Font.LoadAndCache | CSFML/src/Graphics/Font.cpp:638-641 | The glyph is the one `Loaded` gives. The pages are those `Loaded` leaves, with that glyph inserted under the key on the page of the size. |
| FontAtlas.Resize | CSFML/src/Graphics/Font.cpp:959 | The buffer gets the new length. The existing bytes are kept and the new bytes are zero. |

## Left out

- FreeType, the file system and the GPU are outside the model. Their answers are
  parameters (`FreeType`, `Opening`). Texture pixels are not tracked: the model
  keeps only each texture's size and smoothing flag, so `texture.update`,
  `Image` and `loadFromImage` appear only as the image `NewPage` produces.
- `loadFromMemory` and `loadFromStream` are not modelled. Only `loadFromFile` is.
  The stream record handle is therefore always null after loading.
- The destructor is `Cleanup`. `getInfo`, `hasGlyph`, `getLineSpacing` and the
  underline metrics of `sf::Font` are not modelled.
- FontAtlas.Kerning: only the zero case of `getKerning` is modelled. The FreeType
  kerning path is a parameter.
- `setCurrentSize` is not modelled. A failure to set the size is one of the
  FreeType failures that `render` reports as `None`.
- The glyph's lsb/rsb deltas are not part of the model's `Glyph`. The Rust text
  code does not read them.
- A negative bitmap pitch (bottom-up bitmaps) is not modelled. The pitch is a
  `nat`.
- FontAtlas.Font.FindGlyphRect requires `0 < height`. Its callers always pass the
  padded height, which is at least 4.
- Unsigned wrap-around in `findGlyphRect` is excluded by the page invariant
  `ValidPage`. That invariant keeps every row no wider than the texture.
- When placement fails, the C++ code uploads the glyph image over the reserved
  white square at (0, 0). The model does not track texture pixels, so this is not
  represented.
- `Text::draw`, `Text::clone`, the getters and the `todo!()` stubs are not
  modelled. Neither are `_font_texture_id` and `_inverse_transform_need_update`.
  `inverse_transform` is kept but never recomputed, as in the source.
- transform.rs is not part of this model. `Transform::default` is taken to be the
  identity, `Transform::translate` to be right multiplication by a translation,
  and `transform_point` to be the affine map.
- cos and sin are parameters (`Trig`). Only DefaultIsIdentity assumes cos 0 = 1
  and sin 0 = 0.
- Text.Text.GetTransform: no `Text` method sets `transform_need_update`, and the
  default leaves it clear. So in states the API can reach, the cached transform is
  never recomputed. The model keeps this as written.
- Text.Text.FindCharacterPos: as written, the advance of the glyph is also added
  after a space, tab or newline, because no `continue` follows them. The lemma
  CaretFollowsLayout is therefore stated only for strings without whitespace or
  carriage returns, and CaretAheadOfLayout gives the exact gap for strings
  without carriage returns. Carriage returns are not skipped either.
- Text.Text.Default: as written, the scale is (0, 0), not the documented default
  of (1, 1). No cached transform is built from it (see GetTransform).
- The setters `set_font`, `set_style`, `set_character_size` and the colour,
  thickness and spacing setters do not mark the geometry stale, as written.
  `ensure_geometry_update` regenerates the geometry whether or not it is marked.
- f32 arithmetic is modelled as exact real arithmetic, including `f32::ceil`,
  `f32::min` and `f32::max`.

## Findings

| source | as written | input that shows it | evidently intended | confidence | as-written member | corrected member |
|---|---|---|---|---|---|---|
| src/graphics/text.rs:715-718 | `move_` translates the cached transform and leaves the position alone | a new text moved by (5, 0) still reports position (0, 0) | add the offset to the position, as the trait documents (src/graphics/transformable.rs:41-45) | not executed | Text.MoveKeepsPosition | Text.MoveByShiftsPosition |
| src/graphics/text.rs:719-721 | `rotate` overwrites the rotation | rotate by 30 then by 45 gives 45 | add the angle, as the trait documents (src/graphics/transformable.rs:46-50) | not executed | Text.RotateTwiceOverwrites | Text.RotateByTwiceAdds |
| src/graphics/text.rs:722-724 | `scale` overwrites the scale | from scale (1, 1), scale by 2 then by 3 gives (3, 3) | multiply the scale, as the trait documents (src/graphics/transformable.rs:51-55) | not executed | Text.ScaleTwiceOverwrites | Text.ScaleByTwiceMultiplies |
| src/graphics/text.rs:619 | the right extreme of a glyph is `right - shear * top`, without the pen x (the left extreme at line 618 includes it) | "aa" in a font of 10 x 10 boxes, size 20: bounds end at x = 10, the second glyph ends at x = 20 | `x + right - shear * top` | not executed | TextGeometry.SecondBoxOutsideBounds | TextGeometry.SecondBoxInsideCorrected |
