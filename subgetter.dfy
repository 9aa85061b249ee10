/**
 * The identity records of subgetter.py: `Movie` (name, kind, IMDb id, season,
 * episode) and `MovieFile`, a Movie that also knows its path, content hash,
 * size, extension and subtitle file. Python's subclassing is written as
 * composition: a MovieFile holds the Movie part it inherits in `movie`, and
 * the inherited `update_info` is reached through it.
 */
module Subgetter {
  import opened Wrappers
  import opened PyText
  import OsHash
  import SeasonEpisode

  class Movie {
    var name: string
    var kind: string
    var imdbid: int
    var season: int
    var episode: int

    /**
     * `Movie(name, kind="movie", imdbid=0, season=0, episode=0)`: the three
     * numbers are coerced with `int()`, and a value `int()` rejects becomes 0.
     */
    constructor (name: string, kind: string := "movie", imdbid: PyValue := PyInt(0),
                 season: PyValue := PyInt(0), episode: PyValue := PyInt(0))
      ensures this.name == name && this.kind == kind
      ensures this.imdbid == IntOrZero(imdbid)
      ensures this.season == IntOrZero(season)
      ensures this.episode == IntOrZero(episode)
    {
      this.name := name;
      this.imdbid := IntOrZero(imdbid);
      this.kind := kind;
      this.season := IntOrZero(season);
      this.episode := IntOrZero(episode);
    }

    /** `update_info(movie)`: copies the five identity fields of `movie` onto this one. */
    method UpdateInfo(movie: Movie)
      modifies this
      ensures name == old(movie.name) && imdbid == old(movie.imdbid) && kind == old(movie.kind)
      ensures season == old(movie.season) && episode == old(movie.episode)
    {
      name := movie.name;
      imdbid := movie.imdbid;
      kind := movie.kind;
      season := movie.season;
      episode := movie.episode;
    }
  }

  class MovieFile {
    /** The inherited Movie part: name, kind, imdbid, season and episode. */
    const movie: Movie
    var path: string
    var hash: string
    var size: nat
    var extension: string
    var subfile: Option<string>

    /**
     * What holds of every MovieFile: the extension is the text after the
     * path's last '.', and the hash is "SizeError" exactly for files under
     * 128 KiB and otherwise 16 lower-case hex digits.
     */
    ghost predicate Valid()
      reads this
    {
      && extension == LastPart(path, '.')
      && (hash == OsHash.SizeError <==> size < OsHash.MinSize)
      && (size >= OsHash.MinSize ==> |hash| == 16 && forall i :: 0 <= i < 16 ==> OsHash.IsLowerHex(hash[i]))
    }

    /**
     * `MovieFile(path)` over the bytes `content` the file holds: the Movie part
     * starts empty (`Movie("", "")`), the hash and size come from the content,
     * the extension from the path, and there is no subtitle file yet.
     */
    constructor (path: string, content: seq<OsHash.Byte>)
      ensures Valid() && fresh(movie)
      ensures movie.name == "" && movie.kind == "" && movie.imdbid == 0
      ensures movie.season == 0 && movie.episode == 0
      ensures this.path == path && size == |content| && subfile == None
      ensures hash == (if |content| < OsHash.MinSize then OsHash.SizeError else OsHash.Hex16(OsHash.HashValue(content)))
      ensures extension == LastPart(path, '.')
    {
      movie := new Movie("", "");
      this.path := path;
      var h := OsHash.ComputeHash(content);
      hash := h;
      size := |content|;
      extension := LastPart(path, '.');
      subfile := None;
    }

    /** `filename()`: the base name of the path. */
    function Filename(): string
      reads this
    {
      Basename(path)
    }

    /**
     * `update_info(movie)` on a MovieFile: the five identity fields take the
     * argument's values; path, hash, size, extension and subfile stay.
     */
    method UpdateInfo(other: Movie)
      requires Valid()
      modifies movie
      ensures Valid()
      ensures movie.name == old(other.name) && movie.imdbid == old(other.imdbid)
      ensures movie.kind == old(other.kind)
      ensures movie.season == old(other.season) && movie.episode == old(other.episode)
      ensures path == old(path) && hash == old(hash) && size == old(size)
      ensures extension == old(extension) && subfile == old(subfile)
    {
      movie.UpdateInfo(other);
    }

    /**
     * `find_season_episode()`: for a series whose season and episode are not
     * yet known, reads them from the leftmost match of the season/episode
     * pattern in the file's base name; without a match both stay 0. Nothing
     * else changes.
     */
    method FindSeasonEpisode()
      requires Valid()
      requires Contains(movie.kind, "serie")
      requires movie.season == 0 && movie.episode == 0
      modifies movie
      ensures Valid()
      ensures movie.name == old(movie.name) && movie.kind == old(movie.kind)
      ensures movie.imdbid == old(movie.imdbid)
      ensures var found := SeasonEpisode.Numbers(Filename());
        if found.Some? then movie.season == found.value.0 && movie.episode == found.value.1
        else movie.season == 0 && movie.episode == 0
      ensures 0 <= movie.season <= 99 && 0 <= movie.episode <= 99
    {
      var base := Basename(path);
      var found := SeasonEpisode.Numbers(base);
      if found.Some? {
        movie.season := found.value.0;
        movie.episode := found.value.1;
      }
    }
  }
}
