# Zoom-clone client bookkeeping, modelled in Dafny

The conference client in `public/script.js` joins a room, calls every other
participant over PeerJS and can record the call. Most of that file drives the
DOM and browser media APIs. Three parts of it are real logic, and this project
models and verifies them:

- **The recording grid** (`drawAllVideosToCanvas`). The `n` video elements are
  tiled on a grid with `cols = ceil(sqrt(max(1, n)))` columns and
  `rows = ceil(n / cols)` rows. Each cell is `w = floor(width / cols)` by
  `h = floor(height / rows)` pixels. Video `idx` is drawn into column
  `idx % cols` and row `floor(idx / cols)`, at `(col * w, row * h)`, but only
  once its `readyState` is at least 2.
  Module `Grid` (grid.dfy) states these values by what they mean: a least
  square root, a ceiling quotient, a floor quotient and a division with
  remainder. Its lemmas then prove the layout properties: `cols` is the least
  such column count, `1 <= rows <= cols`, each cell lies in the grid, the map
  from index to cell is one-to-one, each tile lies inside the canvas, and no
  two tiles overlap. The per-video loop becomes the method
  `DrawAllVideosToCanvas`. It returns the list of `drawImage` destination
  tiles, and a video that is not ready still keeps its cell.
- **The canvas size** (`updateCanvasSize`). Width is `max(clientWidth, 800)`
  and height is `max(600, innerHeight - 100)`. Module `Canvas` (canvas.dfy)
  holds these two functions and a `RecordCanvas` class whose method stores
  them. The lemma `Grid.ClampedTilesVisible` links the two modules: on a canvas
  sized this way, every tile is at least one pixel in each direction whenever
  there are at most 360000 videos.
- **The call table** `peers` (peer id to PeerJS call). Module `Peers`
  (peers.dfy) holds it as a `map<PeerId, Call>` field of class `Client`. Each
  socket or PeerJS event is a method on that class, and each method states the
  whole new table. A call is a `Call` object with a `closed` flag. The
  invariant `Valid()`, that every call is filed under its remote peer's id, is
  preserved by every event.

numeric.dfy holds `Max` (integer `Math.max`) and the facts about
multiplication and division with remainder that the grid proofs use.

## Model

| member | source | states |
|---|---|---|
| Numeric.Max | public/script.js:127-128 | `Math.max` on integers: the result is at least both operands and equals one of them |
| Canvas.CanvasWidth | public/script.js:127 | the canvas width is at least 800 and at least the client width, and equals one of the two |
| Canvas.CanvasHeight | public/script.js:128 | the canvas height is at least 600 and at least the window height less 100, and equals one of the two |
| Canvas.RecordCanvas.UpdateCanvasSize | public/script.js:125-132 | the canvas takes the clamped width and height, so it is at least 800 by 600 afterwards, and a drawing context exists |
| Grid.CeilSqrtFrom | public/script.js:136 | searching upward from a candidate that is known not to be too large yields the integer ceiling square root `r`: `r >= 1`, `r*r >= m` and `(r-1)*(r-1) < m` |
| Grid.Columns | public/script.js:136 | `cols` is the ceiling square root of `max(1, n)`, so `cols >= 1` even with no videos |
| Grid.ColumnsLeast | public/script.js:136 | no positive column count smaller than `cols` has a square that reaches `max(1, n)` |
| Grid.NoVideos | public/script.js:136-137 | with no videos the grid has one column and zero rows |
| Grid.Rows | public/script.js:137 | `rows = ceil(n / cols)`: `n <= rows*cols < n + cols` |
| Grid.RowsBounds | public/script.js:136-137 | for `n >= 1`: `1 <= rows <= cols` and `(rows-1)*cols < n <= rows*cols` |
| Grid.CellWidth | public/script.js:138 | `w = floor(width / cols)`: `w*cols <= width < (w+1)*cols` |
| Grid.CellHeight | public/script.js:139 | `h = floor(height / rows)` for `n >= 1`: `h*rows <= height < (h+1)*rows` |
| Grid.Place | public/script.js:145-150 | the tile of video `idx` sits in that video's cell (`col < cols`, `idx == row*cols + col`), is one cell (`w = floor(width / cols)` by `h = floor(height / rows)`) in size, and starts at `(col*w, row*h)` |
| Grid.CellOf | public/script.js:147-148 | the cell of video `idx` has `col < cols` and `idx == row*cols + col` |
| Grid.CellInGrid | public/script.js:145-148 | every index `idx < n` has `col < cols` and `row < rows` |
| Grid.CellInjective | public/script.js:147-148 | two indices with the same cell are equal |
| Grid.CellOfPosition | public/script.js:147-148 | the index `row*cols + col` of a position with `col < cols` has exactly that cell, so the index-to-cell map is inverted by `row*cols + col` |
| Grid.TileInCanvas | public/script.js:138-150 | each tile lies inside the canvas: `dx + w <= width` and `dy + h <= height` |
| Grid.TilesDisjoint | public/script.js:145-150 | the tiles of two distinct videos do not overlap |
| Grid.ClampedTilesVisible | public/script.js:127-139 | on a canvas sized by `updateCanvasSize`, with between 1 and 360000 videos, every tile is at least 1 by 1 |
| Grid.DrawStep | public/script.js:145-148 | one turn of the per-video loop appends the tile of the current video exactly when it is ready, and keeps the drawn tiles in page order |
| Grid.DrawAllVideosToCanvas | public/script.js:134-172 | the tiles drawn are exactly those of the videos whose `readyState` is at least 2, in page order. Each one is placed at its own index's cell, so a skipped video does not shift later tiles |
| Peers.Client.constructor | public/script.js:36 | the table starts empty and there is no local stream yet |
| Peers.Client.OnGetUserMedia | public/script.js:65-70 | a granted media request records the local stream; a refused one changes nothing; the table is unchanged |
| Peers.Client.ConnectToNewUser | public/script.js:89-107 | a placed call is a fresh open call to `userId` stored under `userId`, overwriting any previous entry and leaving all other keys unchanged; if placing the call fails, the table is unchanged |
| Peers.Client.OnUserConnected | public/script.js:49-55 | a new user is called only when a local stream is present; otherwise the table is unchanged |
| Peers.Client.OnIncomingCall | public/script.js:72-83 | once a local stream exists, an incoming call is stored under its caller's id, overwriting any previous entry and leaving other keys unchanged; before that the table is unchanged |
| Peers.Client.OnUserDisconnected | public/script.js:57-63 | if `userId` has a call, that call is closed and the key removed; otherwise nothing changes; no other entry and no other call's `closed` flag changes |
| Peers.DisconnectTwice | public/script.js:57-63 | a repeated `user-disconnected` for the same user has the same effect as the first one alone |
| Peers.Call.Close | public/script.js:60 | closing a call leaves it closed |

## Left out

- Everything in `server.js`. Room membership and the relay of `join-room`, `user-connected`, `user-disconnected` and `signal` are delegated to socket.io's room primitives. Express routing, room-id generation and PeerServer mounting are plumbing. server.js is not part of this model.
- The aspect-ratio crop in `drawAllVideosToCanvas` (public/script.js:152-163) is floating-point arithmetic on video dimensions and is not modelled. A tile records only its destination rectangle.
- `Math.sqrt` is floating point. `Grid.Columns` is the exact integer ceiling square root, which agrees with `Math.ceil(Math.sqrt(n))` for any realistic video count. Likewise `Math.ceil(n / cols)` is modelled as exact integer ceiling division.
- Grid.CellHeight: requires at least one video. With none, the source divides by zero rows and gets Infinity, but it never uses that value because no tile is drawn. For the same reason `DrawAllVideosToCanvas` computes the height inside its loop.
- Canvas dimensions are taken as non-negative integers. The 32-bit wrap of the canvas's `width` and `height` attributes is not modelled, because the clamped values are always in range for real screens.
- The black `fillRect` background, `drawImage` itself (and its caught failures), and the `requestAnimationFrame` re-scheduling of the next frame are drawing and timing side effects. `DrawAllVideosToCanvas` models one frame as the list of tiles it draws.
- MediaRecorder, Blob, download-link and record-button state (public/script.js:174-214) are browser API and DOM side effects.
- `addVideoStream`, and the adding and removing of video elements on the `stream` and `close` call events, are DOM updates. The grid takes the list of videos' `readyState`s as its input instead.
- PeerJS `call` and `answer`, `getUserMedia`, socket.io events and the 500 ms `setTimeout` are foreign calls and timing. Each event is a method call on `Peers.Client`. Whether `myPeer.call` yields a call is the parameter `callPlaced`, and the outcome of `getUserMedia` is the parameter `granted`. The media streams themselves are not represented.
- `peers` is a plain JavaScript object, so a peer id equal to an inherited property name such as `constructor` or `__proto__` would behave differently. The model treats it as a true dictionary. PeerJS assigns the ids, and it does not produce such names.
- Concurrency, event ordering and network delivery: nothing in the modelled code implements them.
