/**
 * The naming convention of the coin databases (create_coins.py:9-22): the
 * file `coin_Bitcoin.csv` becomes the database `bitcoin.db` holding the
 * table `BITCOIN`; `run_sql` (core.py:75-78) attaches that file under the
 * alias `coin_bitcoin`, which is the alias the normaliser qualifies with the
 * table (app.py:65).
 */
module Coins {
  import opened Text
  import opened Qualification

  /** `os.path.basename` on POSIX: the text after the last `/`. */
  function Basename(path: String): (r: String)
    ensures '/' !in r && EndsWith(path, r)
    ensures |r| < |path| ==> path[|path| - |r| - 1] == '/'
    decreases |path|
  {
    if path == [] || path[|path| - 1] == '/' then []
    else Basename(path[..|path| - 1]) + [path[|path| - 1]]
  }

  /**
   * `fname.replace("coin_", "").replace(".csv", "")` on the basename. The
   * name holds no directory separator, and a basename without either marker
   * is the name as it is.
   */
  function CoinName(path: String): (n: String)
    ensures '/' !in n
    ensures var b := Basename(path); !Contains(b, "coin_") && !Contains(b, ".csv") ==> n == b
  {
    RemoveAll(RemoveAll(Basename(path), "coin_"), ".csv")
  }

  /** `f"{coin.lower()}.db"`: the coin name without capitals, then `.db`. */
  function DbFile(coin: String): (f: String)
    ensures |f| == |coin| + 3 && EndsWith(f, ".db")
    ensures forall i :: 0 <= i < |f| ==> !('A' <= f[i] <= 'Z')
  {
    Lower(coin) + ".db"
  }

  /**
   * `coin.upper()`: the coin name without lower-case letters, equal to it
   * but for case, so that the database file is the table name lower-cased.
   */
  function TableName(coin: String): (t: String)
    ensures |t| == |coin| && forall i :: 0 <= i < |t| ==> !('a' <= t[i] <= 'z')
    ensures Lower(t) == Lower(coin) && DbFile(coin) == Lower(t) + ".db"
  {
    LowerOfUpper(coin);
    Upper(coin)
  }

  /** Whatever directory holds the file, the basename is what comes after the separator. */
  lemma {:induction false} BasenameAfterSlash(dir: String, name: String)
    ensures Basename(dir + "/" + name) == Basename(name)
    decreases |name|
  {
    var p := dir + "/" + name;
    if name == [] {
      assert p[|p| - 1] == '/';
    } else {
      assert p[..|p| - 1] == dir + "/" + name[..|name| - 1];
      assert p[|p| - 1] == name[|name| - 1];
      BasenameAfterSlash(dir, name[..|name| - 1]);
    }
  }

  /** The directory part of the path never reaches the coin name. */
  lemma DirectoryIgnored(dir: String, name: String)
    ensures CoinName(dir + "/" + name) == CoinName(name)
  {
    BasenameAfterSlash(dir, name);
  }

  /** A path without a separator is its own basename. */
  lemma {:induction false} BasenameNoSlash(name: String)
    requires '/' !in name
    ensures Basename(name) == name
    decreases |name|
  {
    if name != [] {
      assert name[..|name| - 1] + [name[|name| - 1]] == name;
      BasenameNoSlash(name[..|name| - 1]);
    }
  }

  /** A character in neither part is not in their concatenation. */
  lemma NotInConcat(c: char, a: String, b: String)
    requires c !in a && c !in b
    ensures c !in a + b
  {
    forall i | 0 <= i < |a + b| ensures (a + b)[i] != c {
      if i < |a| {
        assert (a + b)[i] == a[i];
      } else {
        assert (a + b)[i] == b[i - |a|];
      }
    }
  }

  /** Removing `coin_` from a text that starts with it and holds no other `_`. */
  lemma RemovePrefix(y: String)
    requires '_' !in y
    ensures RemoveAll("coin_" + y, "coin_") == y
  {
    var s := "coin_" + y;
    assert StartsWith(s, "coin_") && s[5..] == y;
    forall i | 0 <= i && i + 5 <= |y| ensures !OccursAt(y, "coin_", i) {
      assert y[i + 4] != '_';
    }
  }

  /** Removing `.csv` from a text that ends with it and holds no other `.`. */
  lemma {:induction false} RemoveSuffix(x: String)
    requires '.' !in x
    ensures RemoveAll(x + ".csv", ".csv") == x
    decreases |x|
  {
    var s := x + ".csv";
    if x == [] {
      assert s == ".csv" && StartsWith(s, ".csv") && s[4..] == [];
    } else {
      assert !StartsWith(s, ".csv") by { assert s[0] == x[0]; }
      assert s[1..] == x[1..] + ".csv";
      assert '.' !in x[1..] by {
        forall i | 0 <= i < |x[1..]| ensures x[1..][i] != '.' {
          assert x[1..][i] == x[i + 1];
        }
      }
      RemoveSuffix(x[1..]);
      assert RemoveAll(s, ".csv") == [s[0]] + RemoveAll(s[1..], ".csv");
      assert [x[0]] + x[1..] == x;
    }
  }

  /**
   * The coin name of `coin_<x>.csv` is `<x>`, in any directory, when `<x>`
   * holds no `_`, `.` or `/`; so `coin_Bitcoin.csv` gives `Bitcoin`.
   */
  lemma CoinOfFile(dir: String, x: String)
    requires '_' !in x && '.' !in x && '/' !in x
    ensures CoinName(dir + "/" + "coin_" + x + ".csv") == x
    ensures CoinName("coin_" + x + ".csv") == x
  {
    var name := "coin_" + x + ".csv";
    assert dir + "/" + "coin_" + x + ".csv" == dir + "/" + name;
    DirectoryIgnored(dir, name);
    CoinOfName(x);
  }

  lemma CoinOfName(x: String)
    requires '_' !in x && '.' !in x && '/' !in x
    ensures CoinName("coin_" + x + ".csv") == x
  {
    var y := x + ".csv";
    var name := "coin_" + y;
    assert "coin_" + x + ".csv" == name;
    NotInConcat('/', x, ".csv");
    NotInConcat('/', "coin_", y);
    BasenameNoSlash(name);
    NotInConcat('_', x, ".csv");
    RemovePrefix(y);
    RemoveSuffix(x);
  }

  /** Case folding after lower-casing is the same as upper-casing. */
  lemma UpperOfLower(s: String)
    ensures Upper(Lower(s)) == Upper(s)
  {
    forall i | 0 <= i < |s| ensures Upper(Lower(s))[i] == Upper(s)[i] {
      var c := s[i];
      if 'A' <= c <= 'Z' {
        assert LowerChar(c) as int == c as int + 32;
      }
    }
  }

  /** An entry of the map names the coin `n`: its alias is `coin_n`, its table `n` upper-cased. */
  predicate NamesCoin(e: Entry, n: String) {
    e.alias == "coin_" + n && e.table == Upper(n)
  }

  lemma BitcoinNamed()
    ensures NamesCoin(Entry("coin_bitcoin", "BITCOIN"), "bitcoin")
  {
    assert Upper("bitcoin") == "BITCOIN";
  }

  lemma ChainlinkNamed()
    ensures NamesCoin(Entry("coin_chainlink", "CHAINLINK"), "chainlink")
  {
    assert Upper("chainlink") == "CHAINLINK";
  }

  lemma EthereumNamed()
    ensures NamesCoin(Entry("coin_ethereum", "ETHEREUM"), "ethereum")
  {
    assert Upper("ethereum") == "ETHEREUM";
  }

  lemma UsdcoinNamed()
    ensures NamesCoin(Entry("coin_usdcoin", "USDCOIN"), "usdcoin")
  {
    assert Upper("usdcoin") == "USDCOIN";
  }

  /** Every entry of the map follows the naming convention. */
  lemma EntriesNameCoins()
    ensures forall e :: e in AliasToTable ==> NamesCoin(e, e.alias[5..])
  {
    BitcoinNamed();
    ChainlinkNamed();
    EthereumNamed();
    UsdcoinNamed();
    assert AliasToTable[0].alias[5..] == "bitcoin";
    assert AliasToTable[1].alias[5..] == "chainlink";
    assert AliasToTable[2].alias[5..] == "ethereum";
    assert AliasToTable[3].alias[5..] == "usdcoin";
  }

  /** `ATTACH DATABASE '<cwd>/<file>' AS <alias>`, one per coin database of `run_sql`. */
  datatype Attachment = Attachment(file: String, alias: String)

  /** The databases `run_sql` attaches (core.py:75-78), in order. */
  const Attached: seq<Attachment> := [
    Attachment("bitcoin.db", "coin_bitcoin"),
    Attachment("chainlink.db", "coin_chainlink"),
    Attachment("ethereum.db", "coin_ethereum"),
    Attachment("usdcoin.db", "coin_usdcoin")
  ]

  /**
   * The aliases attached are those of the map, in the same order, and each
   * is the file named after the coin of its alias.
   */
  lemma AttachedFollowsMap()
    ensures |Attached| == |AliasToTable|
    ensures forall k :: 0 <= k < |Attached| ==>
              Attached[k].alias == AliasToTable[k].alias && Attached[k].file == AliasToTable[k].alias[5..] + ".db"
  {
    assert AliasToTable[0].alias[5..] == "bitcoin";
    assert AliasToTable[1].alias[5..] == "chainlink";
    assert AliasToTable[2].alias[5..] == "ethereum";
    assert AliasToTable[3].alias[5..] == "usdcoin";
  }

  /**
   * For a coin file whose name, in any case, is an alias of the map, the
   * database it creates is the file attached under that alias and the table
   * it creates is the one the normaliser qualifies the alias with.
   */
  lemma NamingAgreesWithMap(dir: String, x: String, e: Entry)
    requires '_' !in x && '.' !in x && '/' !in x
    requires e in AliasToTable && e.alias == "coin_" + Lower(x)
    ensures var coin := CoinName(dir + "/" + "coin_" + x + ".csv");
            DbFile(coin) == e.alias[5..] + ".db" && TableName(coin) == e.table
            && Attachment(DbFile(coin), e.alias) in Attached
  {
    AttachedFollowsMap();
    var k :| 0 <= k < |AliasToTable| && AliasToTable[k] == e;
    assert Attached[k] == Attachment(e.alias[5..] + ".db", e.alias);
    CoinOfFile(dir, x);
    EntriesNameCoins();
    assert e.alias[5..] == Lower(x);
    UpperOfLower(x);
  }
}
