# TASQuake, modelled and proved in Dafny

The project models the algorithms of the TASQuake engine that carry the most state, and proves what
they promise, for all inputs and over whole runs. Each file is one part of the engine.

| file | part |
|---|---|
| `Mesh.dfy`, `MeshBuilder.dfy` | alias model display lists: triangles to strips and fans, drawn back to the same triangles |
| `Efrags.dfy` | entity fragments on free, entity and leaf chains |
| `Script.dfy`, `Tokens.dfy`, `Words.dfy`, `Aliases.dfy` | command buffer, tokenizer, what it reads back, aliases |
| `Config.dfy`, `Cvars.dfy` | console variables, their lookup cache, and the configuration file |
| `FloodFill.dfy` | skin flood fill with its ring buffer |
| `Rng.dfy` | the game's random numbers: period, capture and replay |
| `Packing.dfy`, `Lightmaps.dfy` | lightmap packer, lightmap store and dirty rectangles |
| `Resample.dfy` | row-cached bilinear texture scaling |
| `Vectors.dfy`, `Decals.dfy`, `Subdivide.dfy`, `Convexity.dfy` | polygon clipping and subdivision, and what it makes of convex polygons |
| `Basics.dfy` | bytes, optional values, powers of two, lists without repetition |
| `Crc.dfy` | table-driven checksum |
| `Visibility.dfy` | leaf marking and the walk through the world |
| `Wire.dfy`, `Snapshot.dfy`, `Demo.dfy` | message bytes, the client snapshot, demo playback and rewind |
| `TexAnim.dfy`, `TexErrors.dfy`, `TexNames.dfy` | animated textures, when they err, and the same told by their names |

Where the engine changes things in place, the model is a class or a method on arrays, proved equal to
a specification function; the theorems are lemmas about those functions. A fixed buffer that is too
small mostly shows up as a result (`fits`, `Stop`, `Outcome`); `Wire.Message.Write`, where the program
would stop, asks for room instead, and the snapshot is proved to have it.

Places where the code does less than one would expect, all stated as lemmas or contracts:

- A texture set with names that differ only in the case of a frame letter can be accepted and still
  make `R_TextureAnimation` run into its infinite-cycle error (`TexAnim.SharedSlotLoops`).
  `TexErrors.NoErrorsIff` gives the exact condition of the errors, and `TexErrors.AllRightIff` the
  exact condition for showing the right frames, which is stronger.
- A value with a quote or a newline is not restored from a configuration file
  (`Config.RestoresIffClean`).
- Inserted text without a final newline runs together with what follows it
  (`Script.SplitConcatOnlyIfClosed`). Alias bodies end in a newline, files inserted by `exec` need not:
  `Aliases.AliasesExpandIff` gives the exact condition. The comment at Source/cmd.c:100-102 says a newline
  is added; the code does not add one, and the model follows the code.
- A new definition of an alias can stay hidden behind a newer alias whose name differs only in case;
  `Aliases.TakesEffectIff` says exactly when.
- The flood fill can leave its marker 255 behind (`FloodFill.MarkerCanStay`); `FloodFill.MarkerStaysIff`
  says exactly when.
- Turning `r_fullbright` on or off does not reach surfaces that nothing else asks to rebuild
  (`Lightmaps.Store.FullbrightIsMissed`); `Lightmaps.Store.RenderDynamicLightmaps` says exactly when.
- `AllocBlock` never finds room for a rectangle of the full width 128
  (`Packing.Packer.AllocBlock`), although callers may ask for one.
- Scaling a texture to at least twice its height loses output rows (`Resample.OnlyTheLastRow`).
- `SubdividePolygon` does not end on some polygons that reach beyond the coordinate 9999
  (`Subdivide.FarTriangle`); `Convexity.ConvexDeliversIff` gives the exact condition for convex polygons
  and `Subdivide.DeliversIff` for all.
- Rewinding a demo before any message was pushed finds no position to go to (`Demo.NoPositionIff`),
  a demo played to its end cannot be rewound (`Demo.StepEndsIff`), and an empty message ends playback
  (`Demo.FrameBack`).

## Model

| member | source | states |
|---|---|---|
| Mesh.DrawingIsTheModel | Source/gl_mesh.c:189-254 | For every model, decoding the generated command list and vertex order by the strip and fan rules gives each triangle exactly once, its vertices in their cyclic order, each with the middle of its pixel as the model file gives it, half the skin further right on the seam of a triangle that faces back |
| Mesh.ListSizes | Source/gl_mesh.c:189-254 | With S strips and fans, the vertex order has numtris + 2S entries and the command list 2 numtris + 5S + 1 words |
| Mesh.CompilePartitions | Source/gl_mesh.c:189-254 | The chosen strips and fans partition the triangles that are still free |
| Mesh.EachTriangleOnce | Source/gl_mesh.c:189-254 | Every triangle is in exactly one strip or fan |
| Mesh.LongestIsFirstMaximum | Source/gl_mesh.c:189-254 | The strip or fan kept is the first of the longest among the trials |
| Mesh.FacesDepict | Source/gl_mesh.c:189-254 | The i-th face of the drawn primitives is the i-th triangle of the strips and fans, up to rotation |
| Mesh.CornerFromPixel | Source/gl_mesh.c:189-254 | The skin coordinates of a vertex, times the size of the skin, are the middle of its pixel |
| MeshBuilder.Builder.FindBest | Source/gl_mesh.c:189-254 | The six trials from one triangle give the longest of them, and leave the marks of later triangles as they were |
| MeshBuilder.Builder.MarkUsed | Source/gl_mesh.c:189-254 | Exactly the triangles of the kept strip or fan become used |
| MeshBuilder.Builder.Emit | Source/gl_mesh.c:189-254 | One strip or fan is appended to both lists as its count, its skin coordinates and its vertices |
| MeshBuilder.Builder.BuildTris | Source/gl_mesh.c:189-254 | The arrays hold exactly the specified lists whenever everything fits them, and fitting is decided exactly |
| Mesh.GrowIsFaithful | Source/gl_mesh.c:58-180 | Every strip or fan depicts its triangles in order: one facing, matching vertices at every step, only free triangles, none twice |
| Mesh.TrialIsFaithful | Source/gl_mesh.c:58-180 | The same for a whole trial from a start triangle and a start corner |
| MeshBuilder.Builder.Search | Source/gl_mesh.c:58-180 | The next triangle is the first later one of the same facing that has the open edge, used or not |
| Mesh.FirstEdge | Source/gl_mesh.c:58-180 | Of the places a directed edge has in a triangle the first is found |
| MeshBuilder.Builder.Extend | Source/gl_mesh.c:58-180 | One extension takes the next triangle, or stops at a used or missing one |
| MeshBuilder.Builder.StripLength | Source/gl_mesh.c:58-117 | The strip grown from a start corner; the temporary marks of later triangles are taken back |
| MeshBuilder.Builder.FanLength | Source/gl_mesh.c:124-180 | The fan grown from a start corner; the temporary marks of later triangles are taken back |
| Mesh.DrawWords | Source/gl_rmain.c:513-571 | Drawing the words of a list of strips and fans draws exactly their faces and consumes both lists |
| MeshBuilder.Builder.BuildAndDraw | Source/gl_rmain.c:513-571 | Building into the arrays and drawing from them shows every triangle once, each corner from its pixel of the skin |
| Efrags.AddThenRemove | Source/gl_refrag.c:49-181 | Adding an entity without fragments and removing it restores every leaf chain and entity chain exactly, and the free chain up to order |
| Efrags.RemoveKeepsConsistent | Source/gl_refrag.c:49-81 | Giving back one fragment keeps the partition between free chain and entity chains, and each leaf chain equal to the fragments lying in that leaf |
| Efrags.RemoveAllLeaves | Source/gl_refrag.c:49-81 | Removal takes exactly the fragments of the entity out of every leaf chain, in place |
| Efrags.ChainUnlink | Source/gl_refrag.c:49-81 | Redirecting the link before a cell takes exactly that cell out of a chain |
| Efrags.World.UnlinkFromLeaf | Source/gl_refrag.c:49-81 | The walk along a leaf chain takes exactly the one fragment out of it |
| Efrags.World.FreeFirst | Source/gl_refrag.c:49-81 | One fragment leaves its leaf and entity chains and becomes the head of the free chain |
| Efrags.World.RemoveEfrags | Source/gl_refrag.c:49-81 | Removal in memory is removal on the chains; the entity has no fragments left |
| Efrags.AddKeepsConsistent | Source/gl_refrag.c:88-150 | Grabbing one fragment keeps the partition and the leaf chains |
| Efrags.TopNodeHoldsAll | Source/gl_refrag.c:88-150 | Everything the box touches lies under the remembered top node |
| Efrags.TouchedByWays | Source/gl_refrag.c:88-150 | The leaves touched are the ends of exactly the ways on which the box is on that side of every node, one for each way, front before back |
| Efrags.TopNodeIs | Source/gl_refrag.c:88-150 | The remembered node is exactly where these ways first part, or the one leaf they lead to |
| Efrags.World.GrabEfrag | Source/gl_refrag.c:88-150 | A fragment moves from the free chain to the end of the entity chain and the head of the leaf chain; without free ones nothing happens |
| Efrags.World.SplitEntityOnNode | Source/gl_refrag.c:88-150 | The entity gets one fragment for every way down to a nonsolid leaf on sides its box touches, front before back, and the top node |
| Efrags.AddAllIs | Source/gl_refrag.c:157-181 | An addition gives the entity the first free fragments in order, the i-th to the i-th touched leaf, until none are left |
| Efrags.World.AddEfrags | Source/gl_refrag.c:157-181 | Addition in memory is addition on the chains, for the leaves at the ends of all contacted ways in their order; an entity without a model is left alone |
| Efrags.World.constructor | Source/cl_main.c:121-125 | At first all 640 fragments are on the free chain and no entity has any |
| Script.ExpansionStep | Source/cmd.c:81-181 | One line executed from the buffer is one line of the listing in which inserted text is expanded in place and added text follows at the end, exactly if the inserted text has its last line ended or nothing is behind it, and added text finds room behind a buffer whose last line is ended |
| Script.JoinIff | Source/cmd.c:81-181 | Three texts behind one another split into the lines of the three exactly under that condition |
| Script.BufferIsExpansion | Source/cmd.c:81-181 | After any number of lines the buffer has executed the same lines with the same effects as the expanded listing, as long as every text inserted or added on the way stays apart from the rest |
| Script.BodyRunsFirst | Source/cmd.c:81-181 | All of an inserted body runs before anything behind it, and as if nothing were behind it, as long as what it inserts on the way has its last line ended; what it adds comes behind all the rest |
| Script.SplitConcat | Source/cmd.c:134-181 | Splitting distributes over text whose last line is ended |
| Script.SplitConcatOnlyIfClosed | Source/cmd.c:134-181 | ... and over no other text: an unended last line swallows the beginning of what follows |
| Script.NewlineCloses | Source/cmd.c:134-181 | Text that ends in a newline has its last line ended, whatever quotes are open |
| Script.FindLineEnd | Source/cmd.c:134-181 | The first line ends at the first newline or unquoted semicolon |
| Script.CutLine | Source/cmd.c:134-181 | The first line without its end, and what is behind it |
| Script.CommandBuffer.ExecuteLine | Source/cmd.c:134-181 | One line leaves the buffer, runs, and what it inserts is in front of the rest, unless that does not fit; what it adds is behind the rest, or dropped |
| Script.CommandBuffer.Execute | Source/cmd.c:134-181 | The lines executed are steps of the run; only the last of them can wait, and the reason to stop is the one reported |
| Script.CommandBuffer.ExecuteFrames | Source/cmd.c:134-181 | Over several frames the executed lines are the same steps, waiting only moves the frame boundaries; the buffer stops at its end, before an overlong line or where inserted text does not fit |
| Script.CommandBuffer.AddText | Source/cmd.c:81-94 | Text is appended if it fits and dropped if not |
| Script.CommandBuffer.InsertText | Source/cmd.c:105-127 | Text that fits by itself comes in front; the old text stays behind it if both fit and is lost if not |
| Script.AliasValue | Source/cmd.c:344-395 | An alias body is the joined arguments and a newline, so its last line is ended |
| Aliases.AliasTable.Define | Source/cmd.c:344-395 | A definition replaces the body of an alias of that name or adds one in front, and keeps all bodies ended |
| Aliases.DefinedKeepsClosed | Source/cmd.c:344-395 | Defining an alias keeps every stored body ended |
| Aliases.BodyIsItsWordsIff | Source/cmd.c:344-395 | An alias whose words have no quotes inside has these words as the one line of its body exactly if each is a word the tokenizer takes whole |
| Aliases.QuotedCommands | Source/cmd.c:344-395 | A quoted argument with a semicolon is two commands when the alias is called |
| Aliases.TakesEffectIff | Source/cmd.c:344-395 | A definition is what a call of its name finds exactly if the name is new or no newer alias has it in other letters |
| Words.JoinedReadsBack | Source/cmd.c:344-395 | Words with a space behind each are read back as these words exactly if each is taken whole |
| Aliases.AliasTable.Find | Source/cmd.c:402-411 | The lookup finds the first alias of that name |
| Aliases.OurLine | Source/cmd.c:840-873 | A line that no other command takes defines an alias, or runs the first alias of its name; an empty line does nothing |
| Aliases.ForeignLine | Source/cmd.c:840-873 | Any other line leaves the aliases alone; of these an exec line inserts its file as it stands |
| Aliases.AliasesExpandIff | Source/cmd.c:840-873 | From a table of ended bodies, whatever lines define and call aliases, the buffer stays the expanded listing after every line exactly if no script or other command inserts an unended line in front of more text, or adds text behind an unended line or without room |
| Aliases.BodiesStayClosed | Source/cmd.c:840-873 | Along every run every stored body stays ended |
| Aliases.LineKeepsClosed | Source/cmd.c:840-873 | Every line keeps the stored bodies ended, and a definition or call inserts only ended text |
| Aliases.CallRunsBodyFirst | Source/cmd.c:840-873 | Calling an alias runs its whole body before the rest of the buffer and before anything it adds, as long as nothing unended is inserted on the way |
| Aliases.RunAliases | Source/cmd.c:840-873 | The command buffer over an alias table runs the expanded listing under that condition |
| Tokens.SkipWhite | Source/common.c:786-854 | The next token starts after blanks and comments |
| Tokens.ParseToken | Source/common.c:786-854 | The next token: a quoted string, a single character or a word |
| Words.TokenStartIs | Source/common.c:786-854 | A token starts at a character exactly if everything before is blank or in a comment and the character is not |
| Words.ParseIs | Source/common.c:786-854 | Parsing finds the token there: to the closing quote, one of six characters, or up to a blank or one of five characters; nothing exactly if the string ends |
| Words.BlankIs | Source/common.c:786-854 | Blank is what is at most a space as a signed character |
| Words.PlainNameIs | Source/common.c:786-854 | Of words without quotes and semicolons the plain names, and the six characters, are exactly those taken whole |
| Tokens.TokenizeString | Source/cmd.c:528-567 | The arguments are the tokens of the line, at most 80 |
| Words.LineGoesOn | Source/cmd.c:528-567 | Behind spaces, tabs and returns comes the next token, and the tokens go on behind it |
| Words.LineStops | Source/cmd.c:528-567 | At a newline there, or where nothing but blanks and comments is left, the tokens end |
| Words.QuotesKeep | Source/cmd.c:528-567 | Any words without quotes or NULs, put in quotes, are read back: blanks, comments and newlines are kept |
| Config.RestoresIffClean | Source/cvar.c:351-390 | A printed line, executed, assigns the printed value exactly if the value has no quote and no newline |
| Config.CleanLine | Source/cvar.c:351-390 | A clean printed line is cut off again whole, whatever follows it |
| Config.FirstTwoTokens | Source/cvar.c:351-390 | The first two arguments of a printed line are the name and the value |
| Cvars.ConfigRoundTrip | Source/cvar.c:351-390 | Executing what was written, over any other assignment, gives every written and settable variable its saved value, changes no other, and leaves the text behind it |
| Cvars.ConfigRunsSmoothly | Source/cvar.c:351-390 | No line of a configuration waits, inserts text or is too long |
| Cvars.LoadConfig | Source/cvar.c:351-390 | The command buffer runs a saved configuration to its end and restores every written and settable variable |
| Cvars.SaveAndLoad | Source/cvar.c:351-390 | Written from the registry and loaded into a command buffer of its own, a configuration that fits the buffer restores every written and settable variable over any other values |
| Cvars.SaveAndRestore | Source/cvar.c:351-390 | On the registry with its lookup cache: write the configuration, make any assignments, execute what was written; every written and settable variable has its saved value, the others keep their present one |
| Cvars.RestoresAnyRun | Source/cvar.c:351-390 | However many lines it takes, once a configuration is executed to its end it is restored |
| Cvars.Registry.FindVar | Source/cvar.c:36-68 | The lookup through the 16-entry cache finds what the scan of the list finds, and keeps only listed variables cached |
| Cvars.Registry.Scan | Source/cvar.c:36-68 | The scan finds the first variable of that name, without regard to case |
| Cvars.EmptyLine | Source/cmd.c:846-850 | A line without words does nothing |
| Cvars.AssignsIff | Source/cvar.c:205-255 | A line sets a variable exactly if it has that name and a value, and the variable is neither read-only, nor fixed once the host has started, nor rejects the value; no other changes |
| Cvars.Registry.Set | Source/cvar.c:205-255 | A variable gets the value unless it is unknown, read-only, fixed at start-up, or refused by its callback |
| Cvars.Registry.Register | Source/cvar.c:302-342 | A variable joins the list unless its name is taken, so names stay distinct |
| Cvars.Registry.Command | Source/cvar.c:351-366 | A line with a variable name sets that variable and no other, or only shows it |
| Cvars.Registry.ExecuteText | Source/cvar.c:351-366 | Executing text line by line on the registry is the run of the command buffer on its variables |
| Words.SameNameIs | Source/common.h:148-154 | Names are the same exactly if each letter is, but for its case |
| Cvars.ChangedOnesSuffice | Source/cvar.c:376-390 | Loaded over the defaults, the file of changed variables does what the file of all variables does: each that may be saved and set is as it was; without either choice only the archived ones are |
| Cvars.Registry.WriteVariables | Source/cvar.c:376-390 | The file holds the lines of exactly the variables to be saved, in list order |
| FloodFill.EmptyListMeansFilled | Source/gl_model.c:1520-1565 | When nothing is pending, exactly the connected component of the corner with the corner colour has been reached and recoloured |
| FloodFill.FillColourMeansNew | Source/gl_model.c:1520-1565 | A neighbour that still has the fill colour has not been reached, so no pixel is put on the list twice |
| FloodFill.ReachKeepsInv | Source/gl_model.c:1520-1565 | Marking a neighbour and putting it on the list keeps the invariant |
| FloodFill.PopKeepsInv | Source/gl_model.c:1520-1565 | Taking a pixel off the list keeps the invariant |
| FloodFill.SettleKeepsInv | Source/gl_model.c:1520-1565 | Giving the pixel its final colour keeps the invariant |
| FloodFill.NothingLeftBehind | Source/gl_model.c:1520-1565 | No pixel of the component keeps the corner colour, nor the visited marker unless that is the filled colour |
| FloodFill.MarkerStaysIff | Source/gl_model.c:1520-1565 | A filled pixel keeps the visited marker exactly if the filled colour is 255 and every neighbour of the corner has the corner colour or 255 |
| FloodFill.MarkerCanStay | Source/gl_model.c:1520-1565 | A one-pixel skin with filled colour 255 keeps the marker |
| FloodFill.RoundKeepsLit | Source/gl_model.c:1520-1565 | Every round keeps: a pixel on the list has a neighbour with a final colour, unless the corner itself found none |
| FloodFill.FirstRoundLit | Source/gl_model.c:1520-1565 | The round about the corner decides whether the marker can stay |
| FloodFill.RoundColourIs | Source/gl_model.c:1520-1565 | A round colours a pixel like a neighbour that offers a colour, if one does, and else with the filled colour |
| FloodFill.RoundKeepsPainted | Source/gl_model.c:1520-1565 | Every round keeps: the corner has its colour for good, and the colours given so far all bordered the background at the start |
| FloodFill.FinallyPainted | Source/gl_model.c:1520-1565 | So they are in the end, for every pixel of the component |
| FloodFill.LookAround | Source/gl_model.c:1520-1565 | The four looks reach every neighbour of the corner colour, and the colour found is that of the last neighbour, in the order left, right, up, down, that is neither of the corner colour nor marked; without one it is the filled colour |
| FloodFill.FillRound | Source/gl_model.c:1520-1565 | One round handles the four neighbours inside the skin and settles the pixel, or reports an overfull list |
| FloodFill.FillFromCorner | Source/gl_model.c:1520-1565 | The loop ends with the component filled, or with a component of at least 4096 pixels |
| FloodFill.FloodFillSkin | Source/gl_model.c:1520-1565 | The whole fill, with both early returns: other pixels are unchanged; the corner gets the colour of the last of its two neighbours that is neither the corner colour nor 255, else the filled colour; unless both are, every filled pixel gets a colour of a pixel that bordered the background; and the marker stays exactly under the condition above |
| FloodFill.Look | Source/gl_model.c:1502-1511 | Looking at a neighbour: reach it, pass over it, or take its colour as the new background colour, and exactly then |
| FloodFill.FindFilledColour | Source/gl_model.c:1526-1538 | The first palette entry that is opaque black, or 0 |
| Rng.FullPeriod | Source/common.c:1727-1745 | From every seed the state comes back exactly after the multiples of 2^32 calls |
| Rng.SameStateIff | Source/common.c:1727-1745 | Two moments of a run are in the same state exactly when 2^32 divides their distance |
| Rng.EveryStateIsReached | Source/common.c:1727-1745 | From every state every state is reached within 2^32 calls |
| Rng.ClosedForm | Source/common.c:1727-1745 | The state after n calls in closed form |
| Rng.SameFactorsOfTwo | Source/common.c:1727-1745 | 1 + a + ... + a^(n-1) has exactly the factors of two that n has |
| Rng.OutputPeriod | Source/common.c:1727-1745 | From every seed n is a period of the outputs exactly if 2^31 divides n |
| Rng.SameOutputIff | Source/common.c:1727-1745 | After a multiple of 2^16 calls the output is the same exactly if their number is a multiple of 2^31 |
| Rng.Generator.Rand | Source/common.c:1727-1745 | One call: the state moves on, the output is 15 bits of it, the call is counted |
| Rng.Generator.Srand | Source/common.c:1727-1745 | Seeding sets the state and clears the counters |
| Rng.Generator.RandTimes | Source/common.c:1727-1745 | n calls give the outputs of the n next states |
| Rng.Generator.FrameRngSeed | Source/common.c:1700-1745 | At each frame the state is captured, and outside pauses the calls of the frame are counted |
| Rng.Generator.CaptureAndReplay | Source/common.c:1700-1745 | Reseeding with the captured seed replays the same outputs and the same state, for any number of calls |
| Packing.Packer.AllocBlock | Source/gl_rsurf.c:1296-1333 | A rectangle goes to the first texture with room, there to the lowest place and there to the leftmost; it overlaps nothing placed before; if there is no room nothing changes |
| Packing.Packer.FindSpot | Source/gl_rsurf.c:1296-1333 | The search with early exits finds the lowest, leftmost window |
| Packing.Packer.MeasureWindow | Source/gl_rsurf.c:1296-1333 | A window is given up only if it is not lower than the best so far |
| Packing.Packer.Place | Source/gl_rsurf.c:1296-1333 | Recording a rectangle keeps all rectangles in bounds and disjoint, the skyline above them, and used textures a prefix |
| Packing.Packer.AboveSkyline | Source/gl_rsurf.c:1296-1333 | What lies above the skyline of its columns overlaps nothing placed |
| Packing.Packer.EmptyTextureFits | Source/gl_rsurf.c:1493-1496 | An unused texture offers its corner, so column 0 tells which textures are in use |
| Lightmaps.Store.BuildLightMap | Source/gl_rsurf.c:358-454 | Every byte of the surface is the one whose interval holds all the light there, the style values are remembered, and no other byte changes |
| Lightmaps.Store.Combine | Source/gl_rsurf.c:358-454 | The light of every sample is the scaled sum over its styles plus the dynamic lights |
| Lightmaps.Store.StoreBlock | Source/gl_rsurf.c:358-454 | Every byte of the surface is the one for its light; no other byte changes |
| Lightmaps.LightDependsOnStyles | Source/gl_rsurf.c:358-454 | The light depends on nothing but the values of the surface's own styles |
| Lightmaps.StoredIs | Source/gl_rsurf.c:358-454 | The byte stored for a light is 255 less the number of whole steps in it, down to 0 |
| Lightmaps.ByteIsOne | Source/gl_rsurf.c:358-454 | There is one byte for each light: 255 without light, and never larger with more |
| Lightmaps.LightIsTotal | Source/gl_rsurf.c:358-454 | The light of a sample is the sum over the styles before the first unused one, each sample times its value, and the dynamic lights; all of it with r_fullbright |
| Lightmaps.Store.UploadLightMap | Source/gl_rsurf.c:456-468 | Uploading the dirty rows makes texture and lightmap equal and clears the dirty rectangle; other textures are unchanged |
| Lightmaps.Store.RenderDynamicLightmaps | Source/gl_rsurf.c:561-614 | Every state keeps the invariant: bytes that differ from the texture lie in rows of the dirty rectangle of a modified texture; memory shows the surface as it is lit now exactly if it was rebuilt, or r_fullbright is as it was at the last build, or the surface is saturated |
| Lightmaps.Store.SkippedShowsIff | Source/gl_rsurf.c:561-614 | A surface that is not rebuilt shows the present picture exactly if r_fullbright is as at the last build or makes no difference |
| Lightmaps.Store.FullbrightIsMissed | Source/gl_rsurf.c:561-614 | A surface without samples, built in normal light and not rebuilt, does not show r_fullbright |
| Lightmaps.Store.MarkDirty | Source/gl_rsurf.c:561-614 | The dirty rectangle grows over the surface and keeps what it covered |
| Lightmaps.Store.StylesChanged | Source/gl_rsurf.c:561-614 | A rebuild is asked for exactly if some style of the surface has another value than remembered |
| Lightmaps.Store.Rebuild | Source/gl_rsurf.c:561-614 | Rebuilding one surface leaves the bytes and remembered styles of all others correct |
| Lightmaps.GrowCovers | Source/gl_rsurf.c:561-614 | The grown rectangle stays inside the block and covers the old one and the surface |
| Lightmaps.BytesDisjoint | Source/gl_rsurf.c:561-614 | Disjoint rectangles share no byte |
| Lightmaps.Store.CreateSurfaceLightmap | Source/gl_rsurf.c:1421-1447 | A new surface gets a rectangle disjoint from all others and shows its light |
| Lightmaps.Store.UploadAll | Source/gl_rsurf.c:1457-1511 | After loading, all used textures equal their lightmaps and nothing is dirty |
| Resample.ResampleTexture | Source/gl_draw.c:1326-1386 | Rows are direct bilinear interpolation as far as the output pointer gets; it advances exactly on the rows between two source rows, and rows further on are never written |
| Resample.EmitRow | Source/gl_draw.c:1326-1386 | One output row is blended or copied to where the output pointer is |
| Resample.MoveBuffers | Source/gl_draw.c:1326-1386 | Moving the two row buffers keeps them the lines of the current and the next source row |
| Resample.BilinearBetween | Source/gl_draw.c:1326-1386 | Every channel of a result lies between the source pixels around it |
| Resample.OnlyTheLastRow | Source/gl_draw.c:1326-1386 | For power-of-two heights up to 65536, the branch that does not advance is taken on the last row, and on no other exactly if the height is less than doubled |
| Resample.LerpLine | Source/gl_draw.c:1290-1319 | A line is interpolated between neighbouring pixels and reads only pixels of the line |
| Resample.StepInside | Source/gl_draw.c:1290-1319 | No step leaves the source |
| Resample.LerpIsMean | Source/gl_draw.c:1290-1319 | An interpolated value is the mean of its two neighbours, weighted in 65536ths, rounded down |
| Resample.FStepIs | Source/gl_draw.c:1290-1319 | The step is the largest with which the output does not leave the source |
| Resample.RoundPower2 | Source/gl_draw.c:402-406 | The power of two at least the size and less than twice it |
| Resample.ScaleToPowers | Source/gl_draw.c:1520-1528 | Scaled to powers of two, every row of the output is direct bilinear interpolation |
| Decals.ClipPolygonAgainstPlane | Source/gl_decals.c:421-492 | The buffer holds the clipped polygon, if it fits: all vertices in front of the plane and all points where edges cross it, once each, in the order of the polygon |
| Decals.ClippedInFront | Source/gl_decals.c:421-492 | Clipping puts every vertex in front of the plane and leaves none behind another plane it was in front of |
| Decals.ClippedKeeps | Source/gl_decals.c:421-492 | Vertices in front survive, and a polygon entirely in front is unchanged |
| Decals.CrossingIs | Source/gl_decals.c:421-492 | The crossing point is on the plane and stays in front of every plane both ends are in front of |
| Decals.ClippedRunsThrough | Source/gl_decals.c:421-492 | The clipped polygon runs through the vertices in front and the crossing points, all of them, once each, in the order of the polygon |
| Decals.ClipPolygon | Source/gl_decals.c:391-419 | The six clips in turn, with the early exit on an empty polygon |
| Decals.AllInFront | Source/gl_decals.c:391-419 | Later clips never undo earlier ones |
| Decals.InsideSurvives | Source/gl_decals.c:391-419 | A vertex in front of all planes survives all clips |
| Decals.Decal.AddPolygon | Source/gl_decals.c:316-346 | A polygon is added whole or not at all, exactly if fewer than 128 vertices and 64 triangles result; every triangle index is below the vertex count |
| Decals.Decal.ClipLeaf | Source/gl_decals.c:350-389 | The facing polygons of a leaf are clipped and collected until one has no room; failing means that some polygon does not fit the clip buffers |
| Decals.InBoxMeansTextured | Source/gl_decals.c:179-233 | A point is between the four side planes exactly if its texture coordinates are in [0,1] |
| Decals.InDepth | Source/gl_decals.c:179-233 | A point is between the depth planes exactly if it is no further than the depth from the centre, along the normal |
| Decals.Decal.AssignTexCoords | Source/gl_decals.c:179-233 | Every texture coordinate of the decal is in [0,1] |
| Convexity.ConvexDeliversIff | Source/gl_warp.c:60-136 | On a convex polygon of at most 54 vertices the recursion delivers its pieces exactly if on no axis what lies beyond 9999 or -9999 is wide enough to be cut, and otherwise never ends |
| Convexity.ConvexPieces | Source/gl_warp.c:60-136 | However often a convex polygon of n vertices is cut, no piece has more than n + 6 |
| Convexity.CutFits | Source/gl_warp.c:60-136 | A cut of a convex polygon has at most one vertex more than it |
| Convexity.ConvexIsOneWay | Source/gl_warp.c:60-136 | Once around a convex polygon, no plane across an axis is left more than once |
| Convexity.PiecesOneWay | Source/gl_warp.c:60-136 | Cutting keeps that |
| Convexity.OldFaceGoes | Source/gl_warp.c:60-136 | The edge of an earlier cut on the same side of the same axis is cut away |
| Convexity.PieceLabelled | Source/gl_warp.c:60-136 | Labelling edges by the edge or cut they come from, no piece has a label twice |
| Subdivide.DeliversIff | Source/gl_warp.c:60-136 | On any polygon the recursion delivers its pieces exactly if on no axis what lies beyond 9999 or -9999 is wide enough to be cut, and no piece has too many vertices |
| Subdivide.UnsettledNeverDone | Source/gl_warp.c:60-136 | If on some axis it is wide enough, no depth of recursion delivers pieces |
| Subdivide.SettlingEnds | Source/gl_warp.c:60-136 | If on none it is, some depth of recursion suffices |
| Subdivide.WiderIsEnough | Source/gl_warp.c:60-136 | An interval that is wide enough to be cut stays so when it grows |
| Subdivide.InRangeSettles | Source/gl_warp.c:60-136 | Polygons within 9999 of the origin are among those for which the recursion ends |
| Subdivide.SubdividePolygon | Source/gl_warp.c:60-136 | Whenever the recursion ends, the list gets the pieces of the back and the front in front of it |
| Subdivide.CutDecreases | Source/gl_warp.c:60-136 | Each cut shortens the total length of both parts by at least 8, and they still settle |
| Subdivide.CutShortens | Source/gl_warp.c:60-136 | A cut shortens its axis by at least 8 and lengthens no other |
| Subdivide.PiecesAreShort | Source/gl_warp.c:60-136 | Every piece is shorter than the size + 16 on every axis |
| Subdivide.PiecesInHull | Source/gl_warp.c:60-136 | Every piece lies in every half-space the polygon lies in, so in its convex hull and bounding box |
| Subdivide.VerticesSurvive | Source/gl_warp.c:60-136 | Every vertex of the polygon is a vertex of some piece |
| Subdivide.FindCut | Source/gl_warp.c:60-136 | The first axis worth cutting, and the line nearest the middle |
| Subdivide.Cut | Source/gl_warp.c:60-136 | Both parts, with the crossing points |
| Subdivide.BoundPoly | Source/gl_warp.c:40-58 | The bounds, within the starting values +-9999 |
| Subdivide.NoProgressAbove | Source/gl_warp.c:40-58 | A polygon entirely above 9999 on an axis is worth cutting there exactly if its front piece is then cut into itself |
| Subdivide.NoProgressBelow | Source/gl_warp.c:40-58 | ... and one entirely below -9999 exactly if its back piece is |
| Subdivide.CutForEver | Source/gl_warp.c:40-58 | A polygon whose first cut leaves all of it in front is cut for ever |
| Subdivide.FarTriangle | Source/gl_warp.c:40-58 | A triangle between 15000 and 20000 is cut for ever |
| Crc.CrcBlock | Source/crc.c:83-91 | The checksum is the remainder of bit-at-a-time division by x^16+x^12+x^5+1 from 0xffff, as in section 2 of ITU-T Recommendation V.41 |
| Crc.DetectsBurst | Source/crc.c:83-91 | Strings of one length that differ only within 16 adjacent bits, at any bit position, have different checksums |
| Crc.DetectsOddChange | Source/crc.c:83-91 | Strings of one length that differ in an odd number of bits have different checksums |
| Crc.RemainderOfBits | Source/crc.c:83-91 | Dividing byte by byte is dividing bit by bit |
| Crc.ShiftKeepsOdd | Source/crc.c:83-91 | Division keeps the number of set bits of the remainder odd or even |
| Crc.ShiftSubtractsDivisor | Source/crc.c:83-91 | One step of division shifts and subtracts the divisor when a bit falls out |
| Crc.DetectsTwoByteChange | Source/crc.c:83-91 | Strings of one length that differ only within two adjacent bytes have different checksums |
| Crc.SuffixKeepsDifference | Source/crc.c:83-91 | Equal bytes behind a difference keep the remainders different |
| Crc.TableIsDivision | Source/crc.c:33-66 | Every table entry is the remainder of dividing its index |
| Crc.ProcessByte | Source/crc.c:68-81 | One table step is eight steps of division |
| Crc.CrcIncremental | Source/crc.c:68-81 | Folding single bytes gives the checksum of the block |
| Crc.TwoBytesInjective | Source/crc.c:68-81 | Two bytes can be told from the remainder |
| Visibility.World.MarkLeaves | Source/gl_rsurf.c:1234-1285 | After marking, a node or nonzero leaf carries the current number exactly if a shown leaf is in it; shown are the leaves with their bit set in the row of either view leaf, and all from leaf 0; what can be seen is among the shown, also when old marks are kept |
| Visibility.World.MarkRow | Source/gl_rsurf.c:1234-1285 | The leaves of the set bits, and the nodes above them, are marked |
| Visibility.World.MarkUp | Source/gl_rsurf.c:1234-1285 | Stopping at the first marked node on the way up is sound |
| Visibility.MergeRows | Source/gl_rsurf.c:1234-1285 | Two merged rows show what either shows |
| Visibility.BitIs | Source/gl_rsurf.c:1234-1285 | Bits are counted from the lowest of the first byte |
| Visibility.RowLengthIs | Source/gl_rsurf.c:1234-1285 | A row has as many bytes as hold one bit for each leaf, and no more |
| Visibility.Nested | Source/gl_rsurf.c:1234-1285 | Of two nodes above one leaf one is above the other |
| Visibility.World.RowsShowSeen | Source/gl_model.c:190-196 | The rows of the view leaves show exactly what can be seen from them |
| Visibility.World.SetParent | Source/gl_model.c:1000-1007 | Every node and nonzero leaf is linked to its parent |
| Visibility.ParentIsAbove | Source/gl_model.c:1000-1007 | A parent link leads one step up, to a node that holds at least the same leaves |
| Visibility.World.LoadNodes | Source/gl_model.c:1014-1054 | A freshly read world, linked, meets the invariant |
| Visibility.World.SetupFrame | Source/gl_rmain.c:2283-2307 | A new frame remembers the old view leaves |
| Visibility.World.RecursiveWorldNode | Source/gl_rsurf.c:1098-1193 | The walk with its prunes finds the same leaves in the same order as a walk without them |
| Visibility.World.DrawFrame | Source/gl_rsurf.c:1098-1193 | From any earlier frame, a frame draws every visible leaf that is not entirely outside the frustum |
| Visibility.DrawnIff | Source/gl_rsurf.c:1098-1193 | A leaf is drawn exactly if it is not solid, shown, and not entirely behind a plane of the frustum |
| Visibility.DrawnOnce | Source/gl_rsurf.c:1098-1193 | No leaf is drawn twice |
| Visibility.NearestFirst | Source/gl_rsurf.c:1098-1193 | Of two drawn leaves some node has the first on the side of the viewer and the second on the other |
| Visibility.NothingShown | Source/gl_rsurf.c:1098-1193 | A node that is not marked has nothing to draw in it |
| Visibility.World.ClipBox | Source/gl_rsurf.c:1112-1122 | Planes a box is entirely in front of need not be tested below it |
| Visibility.BehindStaysBehind | Source/gl_rsurf.c:1112-1122 | A box entirely behind a plane has nothing to draw in it |
| Visibility.FrontStaysFront | Source/gl_rsurf.c:1112-1122 | A box entirely in front of a plane has nothing behind it |
| Visibility.BoxSideIs | Source/mathlib.c:122-159 | A box is in front of a plane exactly if all its points are, behind it exactly if all are behind, and else on both sides |
| Visibility.InsideBetween | Source/mathlib.c:122-159 | The near and far corners of a box lie between those of a box around it |
| Wire.ShortBack | Source/common.c:361-432 | A short in range is read back, and nothing behind it |
| Wire.LongBack | Source/common.c:361-432 | A long in range is read back, and nothing behind it |
| Wire.StringBack | Source/common.c:361-432 | A string without bytes 0 and 255 is read back with its terminator |
| Wire.StringCut | Source/common.c:361-432 | Of any other string nothing behind the first such byte comes back |
| Wire.Message.ReadByte | Source/common.c:460-557 | A byte, or -1 and a bad read at the end |
| Wire.Message.ReadShort | Source/common.c:460-557 | A signed short, or -1 and a bad read near the end |
| Wire.Message.ReadLong | Source/common.c:460-557 | A signed long, or -1 and a bad read near the end |
| Wire.Message.ReadString | Source/common.c:460-557 | A string up to a 0, a 255 or 2047 bytes |
| Snapshot.Record | Source/cl_demo.c:396-450 | The message is the snapshot of the client, and always fits: 4909 bytes at most |
| Snapshot.SnapshotRoundTrip | Source/cl_demo.c:396-450 | Parsing the snapshot gives any other client the names, frags, colors, light styles, four statistics and view entity, uses every byte and leaves the signon stage at 3 |
| Snapshot.SnapshotRefused | Source/cl_demo.c:396-450 | At signon stage 3 or later the snapshot is refused |
| Snapshot.RecordAndParse | Source/cl_demo.c:396-450 | Recording one client and parsing into another, in memory |
| Snapshot.FieldsArrive | Source/cl_demo.c:396-450 | The commands of the snapshot change exactly the fields it carries |
| Snapshot.CommandBack | Source/cl_parse.c:929-1136 | Each encoded command is read back as itself, whatever follows it |
| Snapshot.CommandsBack | Source/cl_parse.c:929-1136 | Parsing any encoded commands is applying them in order |
| Snapshot.ClientState.DoCommand | Source/cl_parse.c:929-1136 | Each command changes its fields, or the message is refused |
| Snapshot.ClientState.ParseServerMessage | Source/cl_parse.c:929-1136 | A whole message is parsed command by command until no byte is left |
| Snapshot.CountersCount | Source/cl_parse.c:1092-1122 | Every kill and every secret of a message of these counts once, up or, while rewinding, down; nothing else changes |
| Snapshot.RewindUncounts | Source/cl_parse.c:1092-1122 | Rewinding over such a message takes back what it counted |
| Demo.RunFollowsTrack | Source/cl_demo.c:166-231 | Over any mixture of steps forwards and backwards the stack holds the starts of the messages before the current one and the messages delivered are those of the reference |
| Demo.GetAgrees | Source/cl_demo.c:166-231 | One request keeps the stack invariant and delivers the current message |
| Demo.ForwardThenRewind | Source/cl_demo.c:166-231 | A step back undoes a step forward |
| Demo.RewindThenForward | Source/cl_demo.c:166-231 | A step forward undoes a step back |
| Demo.RewindsCountDown | Source/cl_demo.c:166-231 | The player, stepped back j times from message k, delivers messages k, k - 1, ..., k - j + 1 and stands at k - j |
| Demo.ForwardsCountUp | Source/cl_demo.c:166-231 | Played forwards it delivers the messages in order |
| Demo.ThereAndBack | Source/cl_demo.c:166-231 | Rewinding by as many messages as were played restores position, stack and flags, unless the demo was played to its end |
| Demo.BlockedAtStart | Source/cl_demo.c:166-231 | At the start of the demo steps back deliver and change nothing |
| Demo.StepEndsIff | Source/cl_demo.c:166-231 | A step that is due, in either direction, ends playback exactly if all messages have been played |
| Demo.FirstForward | Source/cl_demo.c:166-231 | The first message after the connection is complete sets up the invariant |
| Demo.ConnectingDelivers | Source/cl_demo.c:166-231 | Until the connection is complete every request delivers the next message, due or not, and no position is kept |
| Demo.FrameAtIs | Source/cl_demo.c:166-231 | What is found at a file position, by the bytes there: a whole message of 1 to 8000 bytes, a length over 8000, or the end |
| Demo.NoPositionIff | Source/cl_demo.c:166-231 | Exactly when rewinding would find no stack entry |
| Demo.Playback.GetMessage | Source/cl_demo.c:166-231 | A request in memory is the request on the abstract player |
| Demo.Playback.PushFrameposEntry | Source/cl_demo.c:119-136 | A position becomes the newest; the first one lifts the block at the start |
| Demo.Playback.EraseTopEntry | Source/cl_demo.c:138-145 | The newest position goes |
| Demo.Recorder.WriteDemoMessage | Source/cl_demo.c:102-117 | A written message is what is found there, unless it is empty |
| Demo.FrameBack | Source/cl_demo.c:102-117 | A written message is read back exactly if it has between one byte and 8000 |
| Demo.RecordedIsPlayed | Source/cl_demo.c:102-117 | A file of written messages holds these messages and no more |
| TexAnim.AllAnimateIff | Source/gl_model.c:511-604 | Of an accepted texture set, every animating texture is linked into its ring exactly if no two share a frame slot |
| TexErrors.GroupsHold | Source/gl_model.c:511-604 | After every pass each slot of a group is linked as the last pass that reached it left it, and shadowed textures are untouched |
| TexErrors.SlotAfterPass | Source/gl_model.c:511-604 | A pass links the slots whose last texture lies behind it and leaves the others |
| TexAnim.SharedSlotLoops | Source/gl_model.c:511-604 | Names that differ only in the case of a frame letter can make a ring endless |
| TexAnim.ShadowedStays | Source/gl_model.c:511-604 | A texture with a later one in its slot is never linked |
| TexAnim.Textures.Sequence | Source/gl_model.c:511-604 | Sequencing in memory: groups are linked when first met, or the set is refused |
| TexAnim.Textures.SequenceGroup | Source/gl_model.c:511-604 | One group is linked into its two rings, or refused for a bad or missing frame |
| TexAnim.Collect | Source/gl_model.c:511-604 | The frames of a group, the last texture of each slot, and the ring sizes |
| TexAnim.LinkRing | Source/gl_model.c:511-604 | The frames of a ring get their times and links, or one is missing |
| TexAnim.OthersStand | Source/gl_model.c:511-604 | A texture that does not animate is left alone |
| TexNames.AcceptedIff | Source/gl_model.c:511-604 | A set of names is accepted exactly if, whenever a group is looked at, its textures from there on are all frames, and the digits among them begin with 0 and the letters with A, without a gap |
| TexNames.SlotIs | Source/gl_model.c:511-604 | A name is frame k of its ring exactly if its second character is the k-th digit, capital or small letter |
| TexNames.RefusedFor | Source/gl_model.c:511-604 | A refused set is refused for the first fault met: a name that is no frame, or a ring with a gap |
| TexNames.ShownByName | Source/gl_rsurf.c:477-503 | In an accepted set without doubled frames, a texture shows at every time the one of its group whose name has the digit or letter that is due, each for two tenths of a second |
| TexErrors.AllRightIff | Source/gl_rsurf.c:477-503 | Of an accepted set, every animating texture shows frame relative/2 of its ring at every time exactly if no two share a frame slot |
| TexErrors.NoErrorsIff | Source/gl_rsurf.c:477-503 | Of an accepted set, no texture errs at any time exactly if from no shadowed texture on a ring is linked that lacks more than its last frame |
| TexErrors.WinnerErrs | Source/gl_rsurf.c:477-503 | Otherwise the last frame of the ring runs into the infinite cycle at the first lost moment |
| TexErrors.WinnerFinds | Source/gl_rsurf.c:477-503 | If no ring shrank by more than one frame, every moment finds its frame |
| TexAnim.AnimationFindsFrame | Source/gl_rsurf.c:477-503 | At every time an animating texture shows frame relative/2 of its own or the alternate ring, found in at most nine steps, without an error |
| TexAnim.WalkArrives | Source/gl_rsurf.c:477-503 | Following a ring arrives at any frame |
| TexAnim.Textures.TextureAnimation | Source/gl_rsurf.c:477-503 | The walk in memory, with its two errors |

## Left out

- Rendering, input, sound, the network, file access and the clock: what the algorithms need from them is a parameter (frustum planes, plane distances, style values, dynamic lights, palettes, file bytes, whether a message is due).
- Floating-point rounding: coordinates, planes and skin coordinates are real numbers.
- 32-bit wrap-around of counters: `rng_index`, `r_visframecount` and the sums of light samples are unbounded; the random state itself wraps at 2^32.
- Script.CommandBuffer.Execute: stops after `limit` lines, which the original does not, because an alias may call itself for ever; commands are a function of their surroundings and their line.
- Script.CommandBuffer.ExecuteLine: a line inserts first and adds then, and all that it adds is one text; where inserted text and the buffer do not fit together the original stops the program, and the model reports it.
- Aliases.AliasTable.Define: the fixed buffer of 1024 bytes in which a body is put together is not modelled, nor is listing the aliases.
- Aliases.AliasesExpandIff: the contents of files and the other commands are parameters.
- Tokens.ParseToken: a quoted string that is not closed ends with the line; the original reads on behind the terminator.
- Cvars.Registry.Set: the verdict of a change callback is a function of the new value, and what callbacks do besides, broadcasting and remote console output are not modelled.
- Cvars.Registry.Register: deletion and replacement of user-created variables are not modelled, since deletion leaves stale entries in the lookup cache.
- MeshBuilder.Builder.BuildTris: the muzzle-flash pass and the reordering of poses behind it are not modelled.
- FloodFill.FloodFillSkin: with 4096 or more pixels pending the ring buffer overruns; the model reports it and does not follow it further.
- Lightmaps.Store.BuildLightMap: the light that dynamic lights add is a parameter; a texel is always three bytes.
- Resample.ResampleTexture: asks for sizes below 32768, because the original shifts them by 16 bits; what it reads behind an image of one row is a parameter; the fast path without interpolation is not modelled.
- Decals.Decal.ClipLeaf: whether a surface faces the decal is a parameter, and the descent through the world to the leaves is not modelled.
- Subdivide.SubdividePolygon: asks for polygons on which the code ends, by the condition of `Subdivide.DeliversIff`; on polygons that are not convex a cut can overrun the buffers of 64 vertices before the test for 60, which the model reports as too many vertices; texture coordinates of the pieces are not modelled.
- Visibility.World.MarkLeaves: rows of visibility bits come as a parameter, run-length decoding is not modelled; the view leaf is always known.
- Visibility.World.RecursiveWorldNode: finds the leaves to draw; the surfaces chained for them are not modelled.
- Snapshot.ClientState.DoCommand: commands the snapshot does not use are refused as unknown.
- Snapshot.ClientState.ParseServerMessage: commands the snapshot does not use are refused as unknown, and a message that ends inside a command is refused at once.
- Demo.Playback.GetMessage: a negative message length, or one of which fewer than four bytes are left, counts as the end of the file; time demos and pauses are part of `due`.
- TexAnim.Textures.Sequence: loading of the texture images is not modelled; a missing texture is one with an empty name.
- Physics, game rules, menus, the heads-up display and the remaining renderers would only add easy members.
